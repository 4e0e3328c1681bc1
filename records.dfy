/** The records the portal keeps in browser storage and passes between screens.
    Dates that the source formats with the locale are kept as opaque strings. */
module Records {
  import opened Wrappers

  datatype Attendance = Attendance(present: int, absent: int, leave: int)

  datatype Assignments = Assignments(submitted: int, total: int)

  /** An entry of the `students` table. The student registration screen writes
      the `Registered` shape; the generic login form's register branch writes the
      `FormUser` shape, which has no password and no attendance. Both carry the
      `averageScore` that grading overwrites. */
  datatype Student =
    | Registered(name: string, password: string, progress: int, attendance: Attendance,
                 assignments: Assignments, averageScore: int)
    | FormUser(name: string, email: string, studentId: string, loginTime: string,
               averageScore: int, attempts: int, joinDate: string)

  /** The user object handed to `onLogin` and kept as `currentUser`. */
  datatype User =
    | Account(email: string, name: string)
    | Administrator(name: string)
    | Profile(name: string, email: string, studentId: string, loginTime: string)

  /** A call of the application's `onLogin(user, isAdmin)`. */
  datatype LoginCall = LoginCall(user: User, isAdmin: bool)

  /** What a sign-in form shows and does after one submission: the error text
      it displays (`""` for none) and the `onLogin` call it makes, if any. */
  datatype Attempt = Attempt(error: string, login: Option<LoginCall>)

  /** A question of a bank; only `answer` takes part in grading. */
  datatype Question = Question(question: string, options: seq<string>, answer: string,
                               category: string, explanation: string)

  /** One entry of a result's per-question `details`. */
  datatype Detail = Detail(question: string, userAnswer: Option<string>, correctAnswer: string,
                           isCorrect: bool, explanation: string)

  /** An entry of the `examResults` table. `startTime`/`endTime` hold the active
      slot's instants (`N/A` is `None`); their locale formatting is not modelled. */
  datatype ExamResult = ExamResult(studentName: string, email: string, score: int,
                                   totalQuestions: int, percentage: int, date: string,
                                   startTime: Option<int>, endTime: Option<int>,
                                   timeTaken: string, details: seq<Detail>, violationCount: int)

  datatype Project = Project(studentName: string, email: string, title: string,
                             description: string, fileName: string, fileSize: nat,
                             submissionDate: string, status: string)

  /** A time slot, instants in milliseconds; `course` is `""` when the slot has none. */
  datatype Slot = Slot(start: int, end: int, course: string)

  /** `duration` in minutes, `None` when the schedule does not set it. */
  datatype ExamSchedule = ExamSchedule(duration: Option<int>, slots: seq<Slot>)

  /** The persisted `currentUser` entry; `isAdmin` may be absent. */
  datatype SavedSession = SavedSession(user: User, isAdmin: Option<bool>)
}

/** Browser local storage, one field per key the portal uses. */
module Storage {
  import opened Wrappers
  import opened Records

  class Store {
    var students: map<string, Student>
    var examResults: map<string, ExamResult>
    var studentProjects: seq<Project>
    var sentExamEmails: map<string, seq<string>>
    var examSchedule: Option<ExamSchedule>
    var currentUser: Option<SavedSession>

    /** The store as the application's entry point leaves it on first load:
        empty `students` and `examResults` tables and an empty project list. */
    constructor ()
      ensures students == map[] && examResults == map[] && studentProjects == []
      ensures sentExamEmails == map[] && examSchedule == None && currentUser == None
    {
      students := map[];
      examResults := map[];
      studentProjects := [];
      sentExamEmails := map[];
      examSchedule := None;
      currentUser := None;
    }
  }
}
