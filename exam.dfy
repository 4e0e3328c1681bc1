/** The exam screen: question shuffling, the countdown, the tab-violation
    counter, answer recording, grading and the result write-back. */
module Exam {
  import opened Wrappers
  import opened Text
  import opened Rounding
  import opened Records
  import opened Storage
  import opened Schedule

  /** Random draws for a Fisher-Yates shuffle of n items: the draw used at step
      i (counting down from n - 1 to 1) lies in 0..i. */
  predicate ValidPicks(picks: seq<nat>, n: nat) {
    |picks| >= n && forall i :: 0 <= i < n ==> picks[i] <= i
  }

  /** `shuffleArray`: copies its input and swaps in place, from the last
      position down to position 1, each with the drawn position. The result is
      a permutation of the input; the input itself is a value and is untouched. */
  method Shuffle<T>(input: seq<T>, picks: seq<nat>) returns (shuffled: seq<T>)
    requires ValidPicks(picks, |input|)
    ensures |shuffled| == |input|
    ensures multiset(shuffled) == multiset(input)
  {
    var a := new T[|input|](k requires 0 <= k < |input| => input[k]);
    assert a[..] == input;
    var i := a.Length - 1;
    while i > 0
      invariant -1 <= i < a.Length
      invariant multiset(a[..]) == multiset(input)
    {
      var j := picks[i];
      a[i], a[j] := a[j], a[i];
      i := i - 1;
    }
    shuffled := a[..];
  }

  /** Whether the recorded answer to a question matches its key; an unanswered
      question is never correct. */
  predicate IsCorrect(q: Question, answer: Option<string>) {
    answer == Some(q.answer)
  }

  function AnswerAt(answers: map<int, string>, i: int): Option<string> {
    if i in answers then Some(answers[i]) else None
  }

  /** The detail entry grading records for question i. */
  function DetailAt(questions: seq<Question>, answers: map<int, string>, i: nat): Detail
    requires i < |questions|
  {
    var q := questions[i];
    Detail(q.question, AnswerAt(answers, i), q.answer,
           IsCorrect(q, AnswerAt(answers, i)), q.explanation)
  }

  /** The number of correct answers among the first n questions. */
  function CorrectCount(questions: seq<Question>, answers: map<int, string>, n: nat): (c: nat)
    requires n <= |questions|
    ensures c <= n
  {
    if n == 0 then 0
    else CorrectCount(questions, answers, n - 1) +
         (if IsCorrect(questions[n - 1], AnswerAt(answers, n - 1)) then 1 else 0)
  }

  /** The number of entries of `details` marked correct. */
  function CountMarked(details: seq<Detail>): nat {
    if details == [] then 0
    else CountMarked(details[..|details| - 1]) + (if details[|details| - 1].isCorrect then 1 else 0)
  }

  /** The grading loop of `handleSubmit`: one pass over the questions in order,
      counting matches and pushing one detail per question. */
  method Grade(questions: seq<Question>, answers: map<int, string>)
    returns (score: nat, details: seq<Detail>)
    ensures score == CorrectCount(questions, answers, |questions|) && score <= |questions|
    ensures |details| == |questions|
    ensures forall i :: 0 <= i < |questions| ==> details[i] == DetailAt(questions, answers, i)
    ensures score == CountMarked(details)
  {
    score := 0;
    details := [];
    var index := 0;
    while index < |questions|
      invariant 0 <= index <= |questions|
      invariant score == CorrectCount(questions, answers, index)
      invariant |details| == index
      invariant forall i :: 0 <= i < index ==> details[i] == DetailAt(questions, answers, i)
      invariant score == CountMarked(details)
    {
      var question := questions[index];
      var userAnswer := AnswerAt(answers, index);
      var isCorrect := userAnswer == Some(question.answer);
      if isCorrect {
        score := score + 1;
      }
      var entry := Detail(question.question, userAnswer, question.answer, isCorrect,
                          question.explanation);
      assert (details + [entry])[..|details + [entry]| - 1] == details;
      details := details + [entry];
      index := index + 1;
    }
  }

  /** Every question answered with its key scores full marks. */
  lemma {:induction false} AllCorrectScoresAll(questions: seq<Question>, answers: map<int, string>, n: nat)
    requires n <= |questions|
    requires forall i :: 0 <= i < n ==> i in answers && answers[i] == questions[i].answer
    ensures CorrectCount(questions, answers, n) == n
  {
    if n > 0 {
      AllCorrectScoresAll(questions, answers, n - 1);
    }
  }

  /** With no answers recorded the score is 0. */
  lemma {:induction false} NoAnswersScoresNothing(questions: seq<Question>, n: nat)
    requires n <= |questions|
    ensures CorrectCount(questions, map[], n) == 0
  {
    if n > 0 {
      NoAnswersScoresNothing(questions, n - 1);
    }
  }

  /** One countdown tick: `t <= 1` stops at 0 and asks for submission,
      otherwise one second is taken off. */
  function TickStep(t: int): (r: (int, bool))
    ensures r.0 >= 0
    ensures r.1 <==> t <= 1
    ensures t > 1 ==> r.0 == t - 1
    ensures t <= 1 ==> r.0 == 0
  {
    if t <= 1 then (0, true) else (t - 1, false)
  }

  /** The remaining time after k ticks that did not expire. */
  function AfterTicks(t: int, k: nat): int {
    if k == 0 then t else TickStep(AfterTicks(t, k - 1)).0
  }

  /** Starting from t >= 1 seconds, the first t - 1 ticks leave t - k seconds and
      do not submit; the tick after that is the one that submits, leaving 0. */
  lemma {:induction false} CountdownExpiresOnce(t: int, k: nat)
    requires t >= 1 && k < t
    ensures AfterTicks(t, k) == t - k
    ensures TickStep(AfterTicks(t, k)).1 <==> k == t - 1
    ensures k == t - 1 ==> AfterTicks(t, k + 1) == 0
  {
    if k > 0 {
      CountdownExpiresOnce(t, k - 1);
    }
  }

  /** One focus-loss or hidden-page event: the counter goes up by one and
      submission is asked for from the third violation on. */
  function ViolationStep(count: int): (r: (int, bool))
    ensures r.0 == count + 1
    ensures r.1 <==> count + 1 >= 3
  {
    (count + 1, count + 1 >= 3)
  }

  /** The violation count after k events. */
  function AfterViolations(count: int, k: nat): int {
    if k == 0 then count else ViolationStep(AfterViolations(count, k - 1)).0
  }

  /** From a fresh session, k events leave the count at k, and the event that
      follows asks for submission exactly when it is the third or a later one:
      the first two only warn and, with no guard, every later one asks again. */
  lemma {:induction false} ViolationsFromFresh(k: nat)
    ensures AfterViolations(0, k) == k
    ensures ViolationStep(AfterViolations(0, k)).1 <==> k + 1 >= 3
  {
    if k > 0 {
      ViolationsFromFresh(k - 1);
    }
  }

  /** `n % 60` with JavaScript's truncating remainder. */
  function TruncRem60(n: int): (r: int)
    ensures -60 < r < 60
    ensures n >= 0 ==> r == n % 60
    ensures n < 0 ==> -60 < r <= 0 && (n - r) % 60 == 0
  {
    if n >= 0 then n % 60 else -((-n) % 60)
  }

  /** `formatTime`: whole minutes (floored), a colon, and the seconds padded to
      two digits when below ten. A non-negative count renders as decimal
      minutes, a colon and exactly two second digits; a negative one starts
      with a minus sign. */
  function FormatTime(seconds: int): (r: string)
    ensures seconds >= 0 ==>
              r == NatToString(seconds / 60) + ":" + [DigitChar(seconds % 60 / 10), DigitChar(seconds % 60 % 10)]
    ensures seconds < 0 ==> |r| > 0 && r[0] == '-'
  {
    var minutes := seconds / 60;
    var secs := TruncRem60(seconds);
    TwoDigits(secs);
    IntToString(minutes) + ":" + (if secs < 10 then "0" else "") + IntToString(secs)
  }

  /** The padded seconds field of a count below a minute is its two digits. */
  lemma TwoDigits(secs: int)
    requires secs < 60
    ensures secs >= 0 ==> (if secs < 10 then "0" else "") + IntToString(secs) == [DigitChar(secs / 10), DigitChar(secs % 10)]
  {
    if secs >= 10 {
      assert NatToString(secs) == NatToString(secs / 10) + [DigitChar(secs % 10)];
    }
  }

  /** Reads an `m:ss` rendering back into seconds; `None` when malformed. */
  function ParseTime(s: string): Option<int> {
    if |s| >= 4 && s[|s| - 3] == ':' && IsDecimal(s[..|s| - 3]) &&
       IsDigit(s[|s| - 2]) && IsDigit(s[|s| - 1])
    then Some(ParseNat(s[..|s| - 3]) * 60 + DigitValue(s[|s| - 2]) * 10 + DigitValue(s[|s| - 1]))
    else None
  }

  /** `formatTime` loses nothing for a non-negative count of seconds. */
  lemma FormatTimeRoundTrip(seconds: nat)
    ensures ParseTime(FormatTime(seconds)) == Some(seconds)
  {
    var m := NatToString(seconds / 60);
    var s := FormatTime(seconds);
    assert s[..|s| - 3] == m;
    ParseNatToString(seconds / 60);
  }

  /** A negative elapsed time (the elapsed time is taken from 3600, so it is
      negative whenever more than an hour remains at submission) renders with a
      minus sign in both parts. */
  lemma FormatTimeNegative()
    ensures FormatTime(-1801) == "-31:0-1"
  {
    assert NatToString(31) == "31" by {
      assert NatToString(3) == "3";
    }
  }

  datatype ScheduleOutcome =
    | AlreadyAttempted   // navigates to the result page
    | Resolved(status: Status)

  /** The state of the exam screen for one signed-in student. */
  class ExamSession {
    var questions: seq<Question>
    var answers: map<int, string>
    var timeLeft: int
    var started: bool
    var timerRunning: bool
    var violationCount: int
    var status: Status
    var activeSlot: Option<Slot>
    var schedule: ExamSchedule
    var startTime: Option<int>

    /** The screen's initial state, before the schedule is checked. */
    constructor (defaultSchedule: ExamSchedule)
      ensures questions == [] && answers == map[] && timeLeft == 60 * 60
      ensures !started && !timerRunning && violationCount == 0
      ensures status == Active && activeSlot == None && schedule == defaultSchedule
      ensures startTime == None
    {
      questions := [];
      answers := map[];
      timeLeft := 60 * 60;
      started := false;
      timerRunning := false;
      violationCount := 0;
      status := Active;
      activeSlot := None;
      schedule := defaultSchedule;
      startTime := None;
    }

    /** `checkSchedule`: a student with a stored result is sent to the result
        page; otherwise the stored schedule (or the compiled-in one) is resolved
        against `now` and, when a slot is active, the countdown is set and the
        slot's course bank is shuffled in. */
    method CheckSchedule(store: Store, email: string, defaultSchedule: ExamSchedule, now: int,
                         banks: Banks, picks: seq<nat>)
      returns (outcome: ScheduleOutcome)
      requires ValidPicks(picks, |banks.web|) && ValidPicks(picks, |banks.newAi|)
      requires ValidPicks(picks, |banks.oldAi|)
      modifies this
      ensures outcome == AlreadyAttempted <==> email in store.examResults
      ensures outcome == AlreadyAttempted ==>
                questions == old(questions) && timeLeft == old(timeLeft) &&
                status == old(status) && activeSlot == old(activeSlot) && schedule == old(schedule)
      ensures outcome.Resolved? ==>
                schedule == store.examSchedule.GetOr(defaultSchedule) &&
                Resolution(status, activeSlot) == Resolve(now, schedule.slots) &&
                outcome.status == status
      ensures outcome.Resolved? && status == Active ==>
                activeSlot.Some? &&
                timeLeft == DurationMinutes(schedule.duration) * 60 &&
                multiset(questions) == multiset(BankFor(banks, CourseOf(activeSlot.value)))
      ensures outcome.Resolved? && status != Active ==>
                questions == old(questions) && timeLeft == old(timeLeft)
      ensures answers == old(answers) && started == old(started) &&
              timerRunning == old(timerRunning) && violationCount == old(violationCount) &&
              startTime == old(startTime)
    {
      if email in store.examResults {
        return AlreadyAttempted;
      }
      schedule := store.examSchedule.GetOr(defaultSchedule);
      var r := Resolve(now, schedule.slots);
      status := r.status;
      activeSlot := r.slot;
      if r.status == Active {
        timeLeft := DurationMinutes(schedule.duration) * 60;
        var bank := BankFor(banks, CourseOf(r.slot.value));
        questions := Shuffle(bank, picks);
      }
      outcome := Resolved(r.status);
    }

    /** `startExam`: the exam starts only if some slot of the schedule (not
        necessarily the active one) still includes the freshly read `now`;
        otherwise the page reloads and nothing starts. */
    method StartExam(now: int) returns (ok: bool)
      requires !started
      modifies this
      ensures ok <==> SomeSlotContains(schedule.slots, now)
      ensures ok ==> started && timerRunning
      ensures !ok ==> started == old(started) && timerRunning == old(timerRunning)
      ensures startTime == if ok then Some(now) else old(startTime)
      ensures questions == old(questions) && answers == old(answers) &&
              timeLeft == old(timeLeft) && violationCount == old(violationCount)
      ensures status == old(status) && activeSlot == old(activeSlot) && schedule == old(schedule)
    {
      ok := SomeSlotContains(schedule.slots, now);
      if ok {
        startTime := Some(now);
        started := true;
        timerRunning := true;
      }
    }

    /** One firing of the one-second interval. When it asks for submission the
        interval is cleared. */
    method Tick() returns (submit: bool)
      requires started && timerRunning
      modifies this`timeLeft, this`timerRunning
      ensures (timeLeft, submit) == TickStep(old(timeLeft))
      ensures timerRunning == !submit
    {
      if timeLeft <= 1 {
        timerRunning := false;
        timeLeft := 0;
        submit := true;
      } else {
        timeLeft := timeLeft - 1;
        submit := false;
      }
    }

    /** The window lost focus: one more violation. */
    method Blur() returns (submit: bool)
      requires started
      modifies this`violationCount
      ensures (violationCount, submit) == ViolationStep(old(violationCount))
    {
      var newCount := violationCount + 1;
      violationCount := newCount;
      submit := newCount >= 3;
    }

    /** The page's visibility changed: a violation only when it became hidden. */
    method VisibilityChange(hidden: bool) returns (submit: bool)
      requires started
      modifies this`violationCount
      ensures hidden ==> (violationCount, submit) == ViolationStep(old(violationCount))
      ensures !hidden ==> violationCount == old(violationCount) && !submit
    {
      submit := false;
      if hidden {
        var newCount := violationCount + 1;
        violationCount := newCount;
        submit := newCount >= 3;
      }
    }

    /** `handleAnswer`: records the answer under the question's index. */
    method Answer(index: int, answer: string)
      modifies this`answers
      ensures answers == old(answers)[index := answer]
      ensures forall k :: k != index ==> (k in answers <==> k in old(answers))
      ensures forall k :: k != index && k in answers ==> answers[k] == old(answers)[k]
    {
      answers := answers[index := answer];
    }

    /** `handleSubmit`: grades the answers, stores the result under the
        student's email and, if the student has an entry, sets its average
        score to the percentage. The elapsed time is taken from a full hour, not
        from the configured duration. */
    method Submit(store: Store, email: string, name: string, date: string)
      requires |questions| > 0
      modifies store`examResults, store`students
      ensures email in store.examResults
      ensures store.examResults == old(store.examResults)[email := store.examResults[email]]
      ensures var rec := store.examResults[email];
              && rec.studentName == name && rec.email == email
              && rec.score == CorrectCount(questions, answers, |questions|)
              && rec.totalQuestions == |questions|
              && rec.percentage == Percent(rec.score, |questions|)
              && 0 <= rec.percentage <= 100
              && rec.date == date
              && rec.startTime == (if activeSlot.Some? then Some(activeSlot.value.start) else None)
              && rec.endTime == (if activeSlot.Some? then Some(activeSlot.value.end) else None)
              && rec.timeTaken == FormatTime(60 * 60 - timeLeft)
              && |rec.details| == |questions|
              && (forall i :: 0 <= i < |questions| ==> rec.details[i] == DetailAt(questions, answers, i))
              && rec.violationCount == violationCount
      ensures store.students ==
                if email in old(store.students)
                then old(store.students)[email := old(store.students)[email].(averageScore := store.examResults[email].percentage)]
                else old(store.students)
    {
      var score, results := Grade(questions, answers);
      var percentage := Percent(score, |questions|);
      PercentBounds(score, |questions|);
      var record := ExamResult(name, email, score, |questions|, percentage, date,
                               if activeSlot.Some? then Some(activeSlot.value.start) else None,
                               if activeSlot.Some? then Some(activeSlot.value.end) else None,
                               FormatTime(60 * 60 - timeLeft), results, violationCount);
      store.examResults := store.examResults[email := record];
      assert store.examResults[email] == record;
      if email in store.students {
        store.students := store.students[email := store.students[email].(averageScore := percentage)];
      }
    }
  }
}
