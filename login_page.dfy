/** The login page (src/app/login/page.tsx): a form whose fields and mode
    are state, and the authentication action that validates a sign-up
    before calling the authentication service. The service's answer is a
    parameter: `None` when the call succeeds, the error message when it
    throws. */
module LoginPage {
  import opened Types

  /** The shortest password a sign-up accepts. */
  const MinPasswordLength: nat := 6

  datatype Rejection = PasswordsDoNotMatch | PasswordTooShort

  /** The sign-up checks, in source order: the confirmation must match,
      then the password must be at least six characters long. */
  function SignUpRejection(password: string, confirmPassword: string): (r: Option<Rejection>)
    ensures r.None? <==> password == confirmPassword && |password| >= MinPasswordLength
    ensures r == Some(PasswordsDoNotMatch) <==> password != confirmPassword
    ensures r == Some(PasswordTooShort) <==> password == confirmPassword && |password| < MinPasswordLength
  {
    if password != confirmPassword then Some(PasswordsDoNotMatch)
    else if |password| < MinPasswordLength then Some(PasswordTooShort)
    else None
  }

  /** The authentication call made, if any. */
  datatype AuthCall = NoCall | CreateUser(email: string, password: string) | SignIn(email: string, password: string)

  datatype AuthOutcome = Rejected(reason: Rejection) | AuthFailed(message: string) | Navigated(path: string)

  class Page {
    var email: string
    var password: string
    var confirmPassword: string
    var isSignUp: bool

    /** The page opens in login mode with empty fields. */
    constructor()
      ensures email == "" && password == "" && confirmPassword == "" && !isSignUp
    {
      email := "";
      password := "";
      confirmPassword := "";
      isSignUp := false;
    }

    /** The mode link switches between sign-up and login and keeps the fields. */
    method ToggleMode()
      modifies this
      ensures isSignUp == !old(isSignUp)
      ensures email == old(email) && password == old(password) && confirmPassword == old(confirmPassword)
    {
      isSignUp := !isSignUp;
    }

    /** `handleAuthAction`: in sign-up mode a rejected form makes no call;
        otherwise the mode's call is made, success navigates to `/` and a
        failure reports the service's message without navigating. Login
        mode checks nothing. */
    method HandleAuthAction(reply: Option<string>) returns (call: AuthCall, outcome: AuthOutcome)
      ensures isSignUp && SignUpRejection(password, confirmPassword).Some? ==>
        call == NoCall && outcome == Rejected(SignUpRejection(password, confirmPassword).value)
      ensures !isSignUp || SignUpRejection(password, confirmPassword).None? ==>
        && call == (if isSignUp then CreateUser(email, password) else SignIn(email, password))
        && outcome == (if reply.None? then Navigated("/") else AuthFailed(reply.value))
    {
      if isSignUp {
        var rejection := SignUpRejection(password, confirmPassword);
        if rejection.Some? {
          return NoCall, Rejected(rejection.value);
        }
      }
      call := if isSignUp then CreateUser(email, password) else SignIn(email, password);
      outcome := if reply.None? then Navigated("/") else AuthFailed(reply.value);
    }
  }

  /** A mismatched short password is reported as a mismatch, and a matching
      password of exactly six characters passes. */
  lemma CheckOrderAndBoundary(short: string, other: string, six: string)
    requires short != other && |short| < MinPasswordLength
    requires |six| == MinPasswordLength
    ensures SignUpRejection(short, other) == Some(PasswordsDoNotMatch)
    ensures SignUpRejection(six, six) == None
  {
  }
}
