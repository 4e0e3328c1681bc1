/** The application shell: the role-based route table and the signed-in
    session kept in state and in storage. */
module AppRoutes {
  import opened Wrappers
  import opened Records
  import opened Storage

  datatype Page =
    | StudentLoginPage | StudentRegisterPage | AdminLoginPage | StudentDashboardPage
    | AdminDashboardPage | ExamPage | ResultPage | ProjectUploadPage

  datatype View = Render(page: Page) | Redirect(to: string) | NoRoute

  /** The pages only a signed-in student may see. */
  const StudentPages: map<string, Page> := map[
    "/student-dashboard" := StudentDashboardPage, "/exam" := ExamPage,
    "/result" := ResultPage, "/project-upload" := ProjectUploadPage]

  /** Which view a path shows, given the signed-in user and the admin flag. */
  function Route(path: string, user: Option<User>, isAdmin: bool): (v: View)
    // the student pages, for a signed-in student only
    ensures path in StudentPages ==>
              v == if user.Some? && !isAdmin then Render(StudentPages[path]) else Redirect("/student-login")
    // the admin dashboard, for the admin flag only
    ensures path == "/admin-dashboard" ==>
              v == if isAdmin then Render(AdminDashboardPage) else Redirect("/admin-login")
    // the root sends each role to its home
    ensures path == "/" ==>
              v == if user.None? then Redirect("/student-login")
                   else if isAdmin then Redirect("/admin-dashboard") else Redirect("/student-dashboard")
    // a signed-in student skips the student sign-in forms; an admin still sees them
    ensures path == "/student-login" ==>
              v == if user.Some? && !isAdmin then Redirect("/student-dashboard") else Render(StudentLoginPage)
    ensures path == "/student-register" ==>
              v == if user.Some? && !isAdmin then Redirect("/student-dashboard") else Render(StudentRegisterPage)
    ensures path == "/admin-login" ==>
              v == if isAdmin then Redirect("/admin-dashboard") else Render(AdminLoginPage)
    ensures v == NoRoute <==> path !in StudentPages.Keys + {"/", "/student-login", "/student-register",
                                                              "/admin-login", "/admin-dashboard"}
  {
    var student := user.Some? && !isAdmin;
    if path == "/" then
      if user.Some? then Redirect(if isAdmin then "/admin-dashboard" else "/student-dashboard")
      else Redirect("/student-login")
    else if path == "/student-login" then
      if student then Redirect("/student-dashboard") else Render(StudentLoginPage)
    else if path == "/student-register" then
      if student then Redirect("/student-dashboard") else Render(StudentRegisterPage)
    else if path == "/admin-login" then
      if isAdmin then Redirect("/admin-dashboard") else Render(AdminLoginPage)
    else if path == "/student-dashboard" then
      if student then Render(StudentDashboardPage) else Redirect("/student-login")
    else if path == "/admin-dashboard" then
      if isAdmin then Render(AdminDashboardPage) else Redirect("/admin-login")
    else if path == "/exam" then
      if student then Render(ExamPage) else Redirect("/student-login")
    else if path == "/result" then
      if student then Render(ResultPage) else Redirect("/student-login")
    else if path == "/project-upload" then
      if student then Render(ProjectUploadPage) else Redirect("/student-login")
    else NoRoute
  }

  /** Following the route table's redirects from any path never loops: at most
      two redirects lead to a rendered page. */
  lemma RedirectsSettle(path: string, user: Option<User>, isAdmin: bool)
    ensures var v := Route(path, user, isAdmin);
            v.Redirect? ==>
              var w := Route(v.to, user, isAdmin);
              w.Render? || (w.Redirect? && Route(w.to, user, isAdmin).Render?)
  {
  }

  /** An administrator never reaches a student page. */
  lemma AdminSeesNoStudentPage(path: string, user: Option<User>)
    ensures Route(path, user, true) != Render(StudentDashboardPage)
    ensures Route(path, user, true) != Render(ExamPage)
    ensures Route(path, user, true) != Render(ResultPage)
    ensures Route(path, user, true) != Render(ProjectUploadPage)
  {
  }

  /** The shell's session state. */
  class Session {
    var currentUser: Option<User>
    var isAdmin: bool

    constructor ()
      ensures currentUser == None && !isAdmin
    {
      currentUser := None;
      isAdmin := false;
    }

    /** The mount effect: a persisted session is restored, with the admin flag
        false when it was not stored. */
    method Restore(store: Store)
      modifies this
      ensures store.currentUser.None? ==> currentUser == old(currentUser) && isAdmin == old(isAdmin)
      ensures store.currentUser.Some? ==>
                currentUser == Some(store.currentUser.value.user) &&
                isAdmin == store.currentUser.value.isAdmin.GetOr(false)
    {
      if store.currentUser.Some? {
        var saved := store.currentUser.value;
        currentUser := Some(saved.user);
        isAdmin := saved.isAdmin.GetOr(false);
      }
    }

    /** `handleLogin`: both state fields and the persisted entry are set. */
    method HandleLogin(store: Store, call: LoginCall)
      modifies this, store`currentUser
      ensures currentUser == Some(call.user) && isAdmin == call.isAdmin
      ensures store.currentUser == Some(SavedSession(call.user, Some(call.isAdmin)))
    {
      currentUser := Some(call.user);
      isAdmin := call.isAdmin;
      store.currentUser := Some(SavedSession(call.user, Some(call.isAdmin)));
    }

    /** `handleLogout`: the user is cleared, the flag reset and the entry removed. */
    method HandleLogout(store: Store)
      modifies this, store`currentUser
      ensures currentUser == None && !isAdmin && store.currentUser == None
    {
      currentUser := None;
      isAdmin := false;
      store.currentUser := None;
    }
  }

  /** Signing in, then loading the application afresh, restores the same
      user and admin flag. */
  method ReloadAfterLogin(store: Store, call: LoginCall) returns (restored: Session)
    modifies store`currentUser
    ensures fresh(restored)
    ensures restored.currentUser == Some(call.user) && restored.isAdmin == call.isAdmin
  {
    var before := new Session();
    before.HandleLogin(store, call);
    restored := new Session();
    restored.Restore(store);
  }
}
