/** The administrator sign-in form, checked against fixed credentials. */
module AdminLogin {
  import opened Wrappers
  import opened Records

  const AdminUsername := "admin"
  const AdminPassword := "admin123"
  const InvalidAdmin := "Invalid admin credentials"

  /** `handleSubmit`: the error is cleared first; exactly the fixed pair signs in
      as `Administrator` with the admin flag, anything else shows the error. */
  function Submit(username: string, password: string): (r: Attempt)
    ensures r.login.Some? <==> username == AdminUsername && password == AdminPassword
    ensures r.login.Some? ==> r.login.value == LoginCall(Administrator("Administrator"), true)
    ensures r.error == (if r.login.Some? then "" else InvalidAdmin)
  {
    if username == AdminUsername && password == AdminPassword then
      Attempt("", Some(LoginCall(Administrator("Administrator"), true)))
    else
      Attempt(InvalidAdmin, None)
  }
}
