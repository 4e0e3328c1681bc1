/** The student registration form: step-by-step checks with early returns, then
    an insertion into the `students` table and an automatic sign-in. */
module StudentRegister {
  import opened Wrappers
  import opened Records
  import opened Storage
  import StudentLogin

  const PasswordMismatch := "Passwords do not match"
  const PasswordTooShort := "Password must be at least 6 characters long"
  const AlreadyRegistered := "User with this email already exists"
  const RegisteredText := "Registration successful! You can now login."

  datatype Outcome =
    | Rejected(error: string)
    /** the success text shown, and the `onLogin` call made two seconds later */
    | Accepted(success: string, login: LoginCall)

  /** The entry a new registration creates: the name and password, progress 0,
      attendance 0/0/0, assignments 0 of 3 and average 0. */
  function NewStudent(name: string, password: string): (s: Student)
    ensures s.Registered? && s.name == name && s.password == password && s.progress == 0
    ensures s.attendance == Attendance(0, 0, 0) && s.assignments == Assignments(0, 3)
    ensures s.averageScore == 0
  {
    Student.Registered(name, password, 0, Attendance(0, 0, 0), Assignments(0, 3), 0)
  }

  /** `handleSubmit`. The password match is checked before its length, and both
      before the table is read; an existing email is refused and its entry kept.
      On success only the new email's entry is written. */
  method Submit(store: Store, name: string, email: string, password: string, confirmPassword: string)
    returns (outcome: Outcome)
    modifies store`students
    ensures password != confirmPassword ==> outcome == Rejected(PasswordMismatch)
    ensures password == confirmPassword && |password| < 6 ==> outcome == Rejected(PasswordTooShort)
    ensures password == confirmPassword && |password| >= 6 && email in old(store.students) ==>
              outcome == Rejected(AlreadyRegistered)
    ensures outcome.Rejected? ==> store.students == old(store.students)
    ensures outcome.Accepted? <==>
              password == confirmPassword && |password| >= 6 && email !in old(store.students)
    ensures outcome.Accepted? ==>
              store.students == old(store.students)[email := NewStudent(name, password)] &&
              outcome == Accepted(RegisteredText, LoginCall(Account(email, name), false))
  {
    if password != confirmPassword {
      return Rejected(PasswordMismatch);
    }
    if |password| < 6 {
      return Rejected(PasswordTooShort);
    }
    var users := store.students;
    if email in users {
      return Rejected(AlreadyRegistered);
    }
    users := users[email := NewStudent(name, password)];
    store.students := users;
    outcome := Accepted(RegisteredText, LoginCall(Account(email, name), false));
  }

  /** After a registration the student sign-in form accepts the same email and
      password and makes the same `onLogin` call the registration made; other
      emails sign in exactly as before. */
  lemma RegisterThenLogin(users: map<string, Student>, name: string, email: string,
                          password: string, other: string, otherPassword: string)
    requires email !in users
    ensures StudentLogin.Submit(users[email := NewStudent(name, password)], email, password) ==
            Attempt("", Some(LoginCall(Account(email, name), false)))
    ensures other != email ==>
            StudentLogin.Submit(users[email := NewStudent(name, password)], other, otherPassword) ==
            StudentLogin.Submit(users, other, otherPassword)
  {
  }
}
