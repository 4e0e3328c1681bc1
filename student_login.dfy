/** The student sign-in form: a lookup of the entered email in the `students`
    table and an exact comparison of the stored password. */
module StudentLogin {
  import opened Wrappers
  import opened Records

  const InvalidCredentials := "Invalid email or password"

  /** The stored entry has a password and it is exactly the entered one. An
      entry written by the generic login form has no password and never matches. */
  predicate PasswordMatches(users: map<string, Student>, email: string, password: string) {
    email in users && users[email].Registered? && users[email].password == password
  }

  /** `handleSubmit`: the error is cleared first; on a match `onLogin` receives
      the entered email and the stored name as a non-admin, otherwise the error
      is shown and `onLogin` is not called. The table is only read. */
  function Submit(users: map<string, Student>, email: string, password: string): (r: Attempt)
    ensures r.login.Some? <==> PasswordMatches(users, email, password)
    ensures r.login.Some? ==> r.login.value == LoginCall(Account(email, users[email].name), false)
    ensures r.error == (if r.login.Some? then "" else InvalidCredentials)
  {
    if PasswordMatches(users, email, password) then
      Attempt("", Some(LoginCall(Account(email, users[email].name), false)))
    else
      Attempt(InvalidCredentials, None)
  }
}
