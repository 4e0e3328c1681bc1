# Exam portal core, modelled in Dafny

This project models the logic of a browser-based exam portal. Students register and sign in, then take a timed multiple-choice exam inside an admin-configured time window, and then see their result. An administrator sees the stored students, results and uploaded projects. All state lives in the browser's local storage. Here that storage is the class `Storage.Store`: one field per storage key. Its constructor is the initial state the entry point writes: empty `students` and `examResults` tables and an empty project list.

One module per source file:

- `Schedule` (from `src/components/Exam.js`) resolves the current instant against the slot list. The result is `Upcoming`, `Active` or `Ended`, plus the first slot in declared order that contains the instant. It also picks the question bank and the duration.
- `Exam` (from `src/components/Exam.js`) holds the in-place Fisher–Yates shuffle and the grading loop. It also holds the countdown tick, the violation counter and `formatTime`. The class `ExamSession` holds the screen's state and the handlers that change it. `Submit` writes the result and the student's average score into the store.
- `StudentRegister`, `StudentLogin` and `AdminLogin` model the three sign-in and registration forms.
- `LoginForm` models the generic form in `src/components/Login.js`: field validation (including a proved matcher for the `\S+@\S+\.\S+` email pattern), the field update on typing, and the register branch.
- `ResultMail` models the result identifier, the per-user "already mailed" list, the recipients and the per-question summary text.
- `StudentDashboard` and `AdminDashboard` model the attendance rate and the admin tables and figures.
- `ProjectUpload` models the project-list append.
- `AppRoutes` models the role-based route table and the signed-in session.

Shared modules: `Wrappers` (Option), `Text` (JavaScript white space, decimal rendering and its inverse), `Rounding` (`Math.round` of a quotient as round-half-up integer division) and `Records` (the stored records).

Behaviour of the code worth noting:

- With no slots, `Math.min()` is +Infinity and `new Date(Infinity)` is an invalid date. Every comparison with it is false, so the code reaches the slot search, finds nothing and answers `Upcoming`. So an empty slot list resolves to `Upcoming` with no slot. `EarliestStart`/`LatestEnd` return `None` for the invalid date.
- Grading compares the answer with the question's `answer` field.
- Nothing guards against a second submission. The timer and the violation handlers each ask for a submission independently, and a fourth violation asks again.
- The countdown always starts from the full configured duration. It is never capped at the slot's end.
- The elapsed time recorded is `3600 − timeLeft`, whatever the configured duration. It can be negative: whenever more than an hour remains at submission (`Exam.FormatTimeNegative`).
- The average score is written only when the student has an entry in `students`.
- The generic form's register branch stores an entry without a password. It also overwrites an existing entry, which locks that email out of the student sign-in form (`LoginForm.RegistrationDropsPassword`).
- Dated results are told apart by their date alone (`ResultMail.SameDateSameId`). The date is day-granular, so two results on the same day share an identifier.

## Model

| member | source | states |
|---|---|---|
| `Schedule.EarliestStart` | src/components/Exam.js:71-74 | None (invalid date) iff there are no slots; otherwise a lower bound of every start that is itself some slot's start |
| `Schedule.LatestEnd` | src/components/Exam.js:72-75 | None iff there are no slots; otherwise an upper bound of every end that is itself some slot's end |
| `Schedule.FindSlot` | src/components/Exam.js:83-87 | the index of a slot containing `now` with no earlier slot containing it; None iff no slot contains it |
| `Schedule.Resolve` | src/components/Exam.js:67-98 | Active iff some slot contains `now`, and then the slot is the first such in declared order; no slot unless Active; Ended iff some slot has begun and every slot is over |
| `Schedule.BeforeAllSlots` | src/components/Exam.js:77-78 | before every start (including with no slots) the result is Upcoming with no slot |
| `Schedule.AfterAllSlots` | src/components/Exam.js:79-80 | after every end, with a slot begun, the result is Ended with no slot |
| `Schedule.GapBetweenSlots` | src/components/Exam.js:89-94 | inside the overall window with no slot containing `now`, the result is Upcoming with no slot |
| `Schedule.OverlapFirstDeclaredWins` | src/components/Exam.js:83-90 | of two overlapping slots that both contain `now`, the first declared is chosen |
| `Schedule.CourseOf` | src/components/Exam.js:105 | the selected course is never empty: the slot's own course when it has one, `web` when it has none |
| `Schedule.DurationMinutes` | src/components/Exam.js:101-102 | the duration is never 0: the configured one when present and non-zero, 60 when missing or 0 |
| `Schedule.BankFor` | src/components/Exam.js:27-31 | `new_ai`, `old_ai` and `web` select their own banks, and any other course gets the web bank |
| `Exam.Shuffle` | src/components/Exam.js:35-42 | the result has the input's length and the input's multiset of elements (a permutation) |
| `Exam.CorrectCount` | src/components/Exam.js:221-223 | the score over the first n questions is at most n |
| `Exam.Grade` | src/components/Exam.js:218-232 | the score is the number of questions whose recorded answer equals the key, so it is at most the question count; one detail per question, in order; the score equals the number of details marked correct |
| `Exam.AllCorrectScoresAll` | src/components/Exam.js:221-223 | answering every question with its key scores every question |
| `Exam.NoAnswersScoresNothing` | src/components/Exam.js:221-223 | with no answers recorded the score is 0 |
| `Exam.TickStep` | src/components/Exam.js:197-204 | the remaining time never goes negative; submission is asked for iff the time was at most 1; otherwise exactly one second is taken off |
| `Exam.CountdownExpiresOnce` | src/components/Exam.js:196-205 | from t ≥ 1 seconds, ticks 1 to t−1 leave t−k seconds without submitting; the t-th tick is the only one that submits, and it leaves 0 |
| `Exam.ViolationStep` | src/components/Exam.js:123-129 | each violation raises the count by exactly one and asks for submission iff the new count is at least 3 |
| `Exam.ViolationsFromFresh` | src/components/Exam.js:123-146 | from a fresh session, k violations leave the count at k, and the next one asks for submission iff it is the third or later: the first two only warn, and with no guard every later one asks again |
| `Exam.TruncRem60` | src/components/Exam.js:265 | JavaScript's remainder lies strictly between −60 and 60, agrees with the mathematical one for non-negative counts, and for a negative count is non-positive and differs from it by a multiple of 60 (the sign of the dividend) |
| `Exam.FormatTime` | src/components/Exam.js:263-267 | a non-negative count renders as decimal minutes, a colon and exactly two second digits; a negative one starts with a minus sign |
| `Exam.FormatTimeRoundTrip` | src/components/Exam.js:263-267 | reading the rendering back gives the number of seconds again |
| `Exam.FormatTimeNegative` | src/components/Exam.js:247 | a negative elapsed time renders with a minus sign in both parts (−1801 gives "-31:0-1") |
| `Exam.ExamSession.constructor` | src/components/Exam.js:14-25 | the screen's initial state: no questions or answers, 3600 s, not started, no violations, status active, no slot |
| `Exam.ExamSession.CheckSchedule` | src/components/Exam.js:45-109 | a student with a stored result is redirected and nothing changes; otherwise the stored schedule (or the default) is resolved; when Active, the countdown is the duration (60 when missing or 0) times 60 and the questions are a permutation of the slot course's bank |
| `Exam.ExamSession.StartExam` | src/components/Exam.js:269-289 | the exam starts iff some slot of the schedule (not necessarily the active one) contains the fresh `now`; otherwise nothing starts |
| `Exam.ExamSession.Tick` | src/components/Exam.js:196-205 | the new time and the submit request are the tick step of the old time; the interval stops exactly when it submits |
| `Exam.ExamSession.Blur` | src/components/Exam.js:138-150 | the count and the submit request are the violation step of the old count |
| `Exam.ExamSession.VisibilityChange` | src/components/Exam.js:120-136 | a hidden page is one violation step; a visible page changes nothing and does not submit |
| `Exam.ExamSession.Answer` | src/components/Exam.js:210-215 | only the given question index's answer changes |
| `Exam.ExamSession.Submit` | src/components/Exam.js:217-261 | the result stored under the email holds the score, the question count, the rounded percentage in 0..100, the details, the violations and the elapsed time taken from 3600; other results are kept; the average score is set only if the student exists |
| `Rounding.RoundDiv` | src/components/Exam.js:243 | the result is the integer nearest to p/t, with halves rounded up |
| `Rounding.Percent` | src/components/Exam.js:243 | `Math.round(part / total * 100)`: the integer nearest to 100·part/total, halves rounded up |
| `Rounding.RoundDivBounds` | src/components/AdminDashboard.js:79 | rounding p/t for p within 0..100t gives a value within 0..100 |
| `Rounding.PercentBounds` | src/components/Exam.js:243 | a part between 0 and the whole gives a percentage between 0 and 100 |
| `Rounding.PercentEnds` | src/components/Exam.js:243 | the whole is 100 percent and nothing is 0 percent |
| `Storage.Store.constructor` | src/index.js:6-16 | the initial store: empty students and results tables and an empty project list |
| `StudentRegister.Submit` | src/components/StudentRegister.js:11-53 | the mismatch error comes before the length error, and both come before the duplicate check; any error leaves the table unchanged; success iff the passwords match, are at least 6 long and the email is new, and then only that email's entry is written and the user is signed in as a non-admin |
| `StudentRegister.NewStudent` | src/components/StudentRegister.js:34-41 | a new entry holds the name and password, progress 0, attendance 0/0/0, assignments 0 of 3 and average 0 |
| `StudentRegister.RegisterThenLogin` | src/components/StudentRegister.js:34-52 | after registering, the student sign-in form accepts the same email and password with the same sign-in call; other emails sign in as before |
| `StudentLogin.Submit` | src/components/StudentLogin.js:8-22 | sign-in succeeds iff the email has an entry whose stored password equals the input, and then passes the entered email and the stored name as a non-admin; otherwise the error is shown and nobody is signed in |
| `AdminLogin.Submit` | src/components/AdminLogin.js:8-20 | sign-in succeeds iff the pair is admin/admin123, as Administrator with the admin flag; otherwise the error is shown |
| `Text.TrimStart` | src/components/Login.js:22 | a suffix of the input, empty iff the input is all white space, and otherwise starting with a non-space character |
| `Text.TrimEnd` | src/components/Login.js:22 | a prefix of the input, empty iff the input is all white space, and otherwise ending with a non-space character |
| `Text.Trim` | src/components/Login.js:22 | `trim()`: no longer than the input, empty iff the input is all white space, and otherwise starting and ending with a non-space character |
| `Text.TrimEmptyIffBlank` | src/components/Login.js:22-39 | `!s.trim()` holds exactly when every character of the string is white space |
| `LoginForm.DotFrom` | src/components/Login.js:28 | true iff a dot at or after k completes the email pattern for the given `@` |
| `LoginForm.AtFrom` | src/components/Login.js:28 | true iff some `@` at or after the position starts a match of the email pattern |
| `LoginForm.MatchesEmail` | src/components/Login.js:28 | true iff some substring matches non-space⁺ `@` non-space⁺ `.` non-space⁺ |
| `LoginForm.ErrorsRules` | src/components/Login.js:19-46 | per field, an error iff its rule fails, with the right message; the name, student ID and confirmation are checked only when registering; an empty email or password takes precedence |
| `LoginForm.EmailCheckFacts` | src/components/Login.js:26-30 | only the email entry may change: `Email is required` for a blank email, `Email is invalid` for one the pattern rejects, nothing added otherwise |
| `LoginForm.PasswordCheckFacts` | src/components/Login.js:32-36 | only the password entry may change: `Password is required` when empty, the length message when under 6 characters, nothing added otherwise |
| `LoginForm.RegisterChecksFacts` | src/components/Login.js:38-46 | only the student ID and confirmation entries may change, and only when registering: a blank student ID and a differing confirmation each add their message |
| `LoginForm.ValidateForm` | src/components/Login.js:19-50 | the error map it fills is exactly the rules' errors, and the form is valid iff there are none |
| `LoginForm.HandleChange` | src/components/Login.js:93-107 | only the named field changes and takes the value; only that field's error is blanked, and the set of fields with errors is unchanged |
| `LoginForm.HandleChangeKeepsFields` | src/components/Login.js:93-98 | typing keeps all five form fields present |
| `LoginForm.UserData` | src/components/Login.js:65-70 | the signed-in profile carries the entered email and the login time; the entered name and student ID when given, otherwise the name `Student User` and an `STU`-prefixed identifier |
| `LoginForm.Submit` | src/components/Login.js:52-91 | the form is rejected iff the validation rules report an error, and then shows exactly those errors and writes nothing; otherwise the user is signed in; a registration writes the email's entry with average 0 and attempts 0, overwriting any existing one; the name falls back to Student User; the admin flag comes from the form type |
| `LoginForm.RegistrationDropsPassword` | src/components/Login.js:73-81 | after this form's registration the student sign-in form rejects that email with every password |
| `ResultMail.ResultId` | src/components/Result.js:28-30 | the identifier is never empty, and is the date whenever the result has one |
| `ResultMail.SameDateSameId` | src/components/Result.js:28-30 | two results with the same non-empty date have the same identifier |
| `ResultMail.UndatedIdParts` | src/components/Result.js:114-116 | an undated identifier starts with the decimal score and a dash and ends with the time taken |
| `ResultMail.MarkSent` | src/components/Result.js:33-44 | afterwards the identifier is in the user's list; an identifier already there changes nothing; a new one is appended at the end; other users' lists are untouched |
| `ResultMail.MarkSentIdempotent` | src/components/Result.js:33-44 | recording an identifier twice is the same as recording it once |
| `ResultMail.MarkSentOnce` | src/components/Result.js:37-44 | a new identifier recorded twice occurs exactly once in the list |
| `ResultMail.Recipients` | src/components/Result.js:72-89 | at most two addresses: the user first, and the admin copy added iff the admin address differs from the user's |
| `ResultMail.SendEmail` | src/components/Result.js:14-92 | the stored map becomes the recorded map; nothing is sent for an identifier already listed, otherwise the user and possibly the admin are mailed |
| `ResultMail.JoinLinesCount` | src/components/Result.js:50-56 | the summary of n details has exactly n−1 newlines, so one line per detail |
| `ResultMail.SplitLines` | src/components/Result.js:50-56 | splitting at newlines gives at least one piece, and a newline-free text is its own single piece |
| `ResultMail.SplitAfterLine` | src/components/Result.js:50-56 | a newline-free line followed by a newline splits off as the first piece |
| `ResultMail.DetailLineHasNoNewline` | src/components/Result.js:52-54 | a line starts with `Q` and holds no newline |
| `ResultMail.DetailLineVerdict` | src/components/Result.js:52-54 | a line ends in `Correct` exactly when the answer was correct |
| `ResultMail.Lines` | src/components/Result.js:50-56 | one line per detail |
| `ResultMail.LinesAt` | src/components/Result.js:50-56 | line i is the line of question `first + i` |
| `ResultMail.JoinLinesSplit` | src/components/Result.js:50-56 | split at the newlines, the joined text gives back exactly the lines, in order |
| `ResultMail.DetailsString` | src/components/Result.js:50-56 | `No details` for a missing or empty list; otherwise split at newlines it is the list of question lines Q1, Q2, … in order |
| `ResultMail.ResultView.constructor` | src/components/Result.js:8-9 | no result loaded and nothing sent yet |
| `ResultMail.ResultView.Load` | src/components/Result.js:97-135 | the user's stored result is loaded; without one nothing happens; an identifier already listed is not sent again; otherwise the view sends once and records the identifier |
| `StudentDashboard.TotalClasses` | src/components/StudentDashboard.js:15 | for non-negative counts the total is at least the present count, and it is 0 only with no classes recorded at all |
| `StudentDashboard.AttendanceRate` | src/components/StudentDashboard.js:15-16 | 0 with no classes; otherwise the integer nearest to 100·present/total, halves rounded up; within 0..100 for non-negative counts; 100 when every class was attended; 0 when none was |
| `AdminDashboard.KeySetOfDistinct` | src/components/AdminDashboard.js:13 | a key listing without repeats mentions exactly its entries, as many keys as entries |
| `AdminDashboard.EnumerationSize` | src/components/AdminDashboard.js:13 | a listing of distinct keys covering the map has exactly as many entries as the map |
| `AdminDashboard.RowEmail` | src/components/AdminDashboard.js:13-15 | a row shows the key as email for a student-form entry and the entry's own email for a generic-form entry, which the spread lets win |
| `AdminDashboard.StudentList` | src/components/AdminDashboard.js:12-16 | one row per stored student, in key order, carrying its entry; a registration-form entry's row carries its key as email |
| `AdminDashboard.ResultList` | src/components/AdminDashboard.js:20-21 | one row per stored result, in key order, that result itself |
| `AdminDashboard.ResultListComplete` | src/components/AdminDashboard.js:20-21 | every stored result appears in the results table |
| `AdminDashboard.ActiveCount` | src/components/AdminDashboard.js:73 | at most the number of students, and 0 iff no student has a positive average |
| `AdminDashboard.ScoreSum` | src/components/AdminDashboard.js:79 | 0 for no students; otherwise the sum of all but the last plus the last average, the left-to-right step the `reduce` takes |
| `AdminDashboard.ScoreSumBounds` | src/components/AdminDashboard.js:79 | averages within 0..100 sum to between 0 and 100 times their number |
| `AdminDashboard.AverageScore` | src/components/AdminDashboard.js:78-80 | 0 with no students; otherwise the integer nearest to the sum of averages over their number, halves rounded up; within 0..100 when every average is |
| `ProjectUpload.UploadForm.constructor` | src/components/ProjectUpload.js:5-8 | empty title and description, no file, no message |
| `ProjectUpload.UploadForm.Submit` | src/components/ProjectUpload.js:14-45 | with no file nothing is stored or reset; otherwise exactly one record is appended at the end (name, email, title, description, file name, status Submitted), earlier entries are kept, and the fields are cleared |
| `AppRoutes.Route` | src/App.js:53-124 | student pages render iff a non-admin is signed in, else redirect to student login; the admin dashboard renders iff admin, else redirects to admin login; `/` sends each role home; the student sign-in and registration forms redirect a signed-in student to the dashboard and otherwise render, so an admin still sees them; the admin login redirects an admin to the dashboard and otherwise renders |
| `AppRoutes.RedirectsSettle` | src/App.js:53-124 | from any path, at most two redirects lead to a rendered page |
| `AppRoutes.AdminSeesNoStudentPage` | src/App.js:85-124 | with the admin flag, no path renders a student page |
| `AppRoutes.Session.constructor` | src/App.js:15-16 | nobody is signed in and the admin flag is false |
| `AppRoutes.Session.Restore` | src/App.js:18-25 | a stored session is restored, with the admin flag false when absent; without one nothing changes |
| `AppRoutes.Session.HandleLogin` | src/App.js:27-34 | the user, the flag and the persisted entry are all set from the call |
| `AppRoutes.Session.HandleLogout` | src/App.js:36-40 | the user is cleared, the flag is false and the persisted entry is removed |
| `AppRoutes.ReloadAfterLogin` | src/App.js:18-34 | signing in and then restoring on a fresh load gives back the same user and flag |

## Left out

- The network clock (`getCurrentPKTTime`) is not part of this model. Its readings are parameters: `now` as an integer instant, and the formatted `date`/`loginTime`/`joinDate` strings.
- JSON (de)serialisation of the storage entries is not modelled. Malformed entries and the `try`/`catch` around them are not modelled either. The `|| {}` and `|| []` fallbacks for missing keys are the store's initial values.
- React hook lifecycles are not modelled: listener registration and removal, `setInterval`/`setTimeout` scheduling, and the three-second warning banner (`showWarning`). Ticks and violation events are method calls, valid while the exam has started.
- Stale closures are not modelled. In the source, the interval keeps the `handleSubmit` of the render where the exam started, so a timer-driven submission grades the answers as they were then. The model grades the current answers.
- The `await` inside `handleSubmit`, and the interleavings it allows between two submission triggers, are not modelled. Navigation to `/result` and the page reload after a failed start are not modelled.
- `Math.random` is not modelled. The shuffle takes its draws as the parameter `picks`, with draw i in 0..i.
- `Exam.Shuffle`: states that the result is a permutation of the input, not which permutation the given draws produce.
- `Exam.ExamSession.CheckSchedule`: states the shuffled questions as a permutation of the bank, not the exact order the draws give.
- `Math.round` over floating-point division is integer round-half-up. Floating-point error at exact halves is not modelled.
- `Exam.ExamSession.Submit` requires a non-empty question list. The source's percentage would be NaN with none, and the screen offers no submission before questions are loaded.
- Locale date and time formatting is not modelled. A result's start and end times keep the slot's instants. Slot dates are integer instants, and invalid date strings in a slot are not modelled.
- A schedule without a `slots` field (where `checkSchedule` does nothing) is not modelled.
- `formatFileSize` uses floating-point logarithms and rounding, so it is not modelled. A project record keeps the file size in bytes.
- Keyboard and context-menu blocking during the exam is DOM event handling and is not modelled.
- The EmailJS calls are not modelled. `SendEmail` returns the addresses it would mail. The order of the two sends (the admin copy only after the student's succeeds) and send failures are not modelled. The administrator address is a parameter.
- `src/utils/exportToExcel.js`, `src/components/Sidebar.js`, all JSX rendering, the question banks and the default schedule are not part of this model. Banks and the default schedule are parameters.
- In `src/components/Login.js`, the simulated one-second delay, the loading flag and the `catch` branch are not modelled.
- String lengths count Unicode scalar values. JavaScript counts UTF-16 code units, so password-length checks differ for characters outside the Basic Multilingual Plane.
- An entry written by the generic registration form has no attendance. The student dashboard would fail on it; `StudentDashboard.AttendanceRate` takes an attendance record.
- A stored student without an average score would make the admin average NaN. This is not modelled.
- `Object.keys` order is not modelled. It is the `keys` parameter, required to list each key of the table exactly once.
