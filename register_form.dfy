/** The submit handler of the sign-up page (`register.js`): it clears the
    messages, runs all three checks (so several errors can show at once),
    and only when none fails sends the username and password. The fetch and
    the handling of its answer are not modelled; the request body is
    returned. */
module RegisterForm {
  import opened Common
  import RequestValidation

  const UsernameLength: string := "사용자 이름은 2자 이상 20자 이하여야 합니다."
  const PasswordLength: string := "비밀번호는 2자 이상이어야 합니다."
  const PasswordMismatch: string := "비밀번호가 일치하지 않습니다."

  /** The JSON body sent to `POST /api/auth/register`. */
  datatype RegisterBody = RegisterBody(username: string, password: string)

  function UsernameError(username: string): string {
    if |username| < 2 || |username| > 20 then UsernameLength else ""
  }

  function PasswordError(password: string): string {
    if |password| < 2 then PasswordLength else ""
  }

  function ConfirmError(password: string, confirm: string): string {
    if password != confirm then PasswordMismatch else ""
  }

  class SignUpForm {
    var usernameError: string
    var passwordError: string
    var confirmPasswordError: string
    var generalError: string
    var successMessage: string

    constructor()
      ensures usernameError == "" && passwordError == "" && confirmPasswordError == ""
      ensures generalError == "" && successMessage == ""
    {
      usernameError, passwordError, confirmPasswordError := "", "", "";
      generalError, successMessage := "", "";
    }

    /** The `submit` listener, for the three fields' current values. */
    method Submit(username: string, password: string, confirm: string) returns (sent: Option<RegisterBody>)
      modifies this
      ensures usernameError == UsernameError(username)
      ensures passwordError == PasswordError(password)
      ensures confirmPasswordError == ConfirmError(password, confirm)
      ensures generalError == "" && successMessage == ""
      ensures sent.Some? <==> usernameError == "" && passwordError == "" && confirmPasswordError == ""
      ensures sent.Some? ==> sent.value == RegisterBody(username, password)
    {
      usernameError := "";
      passwordError := "";
      confirmPasswordError := "";
      generalError := "";
      successMessage := "";

      var isValid := true;
      if |username| < 2 || |username| > 20 {
        usernameError := UsernameLength;
        isValid := false;
      }
      if |password| < 2 {
        passwordError := PasswordLength;
        isValid := false;
      }
      if password != confirm {
        confirmPasswordError := PasswordMismatch;
        isValid := false;
      }

      if !isValid {
        return None;
      }
      sent := Some(RegisterBody(username, password));
    }
  }

  /** The checks are independent: each error depends on its own condition
      only, so a short username, a short password and a mismatch are all
      reported together. */
  lemma AllChecksRun(username: string, password: string, confirm: string)
    requires |username| < 2 || |username| > 20
    requires |password| < 2 && password != confirm
    ensures UsernameError(username) == UsernameLength
    ensures PasswordError(password) == PasswordLength
    ensures ConfirmError(password, confirm) == PasswordMismatch
  {
  }

  /** The browser's length messages are the server's, and what passes the
      browser passes the server's size rules. It does not check blankness:
      a two-space username passes the browser and the server rejects it. */
  lemma {:induction false} ClientAgainstServer(username: string, password: string, confirm: string)
    ensures UsernameLength == RequestValidation.UsernameLength && PasswordLength == RequestValidation.PasswordLength
    ensures UsernameError(username) == "" && PasswordError(password) == "" ==>
      && RequestValidation.SizeWithin(Some(username), RequestValidation.MinUsernameLength, Some(RequestValidation.MaxUsernameLength))
      && RequestValidation.SizeWithin(Some(password), RequestValidation.MinPasswordLength, None)
    ensures UsernameError("  ") == "" && PasswordError("pw") == "" && ConfirmError("pw", "pw") == ""
    ensures RequestValidation.RegisterViolations(RequestValidation.RegisterRequest(Some("  "), Some("pw"))) != []
  {
    assert JavaTrim("  ") == [] by {
      assert AllStripped("  ", IsJavaTrimmed);
      TrimEmptyIff("  ", IsJavaTrimmed);
    }
  }
}
