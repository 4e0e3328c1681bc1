/** The result screen's notification bookkeeping: the identifier of a result,
    the per-user list of identifiers already mailed, and the text of the
    per-question summary. */
module ResultMail {
  import opened Wrappers
  import opened Text
  import opened Records
  import opened Storage

  /** `date || `${score}-${totalQuestions}-${timeTaken}``: the result's date
      when it has one, otherwise its score, question count and time taken
      joined by dashes. */
  function ResultId(r: ExamResult): (id: string)
    ensures |id| > 0
    ensures r.date != "" ==> id == r.date
  {
    if r.date != "" then r.date
    else IntToString(r.score) + "-" + IntToString(r.totalQuestions) + "-" + r.timeTaken
  }

  /** Dated results are told apart by their date alone: two results stamped
      with the same date share an identifier, whatever their scores. */
  lemma SameDateSameId(r: ExamResult, s: ExamResult)
    requires r.date != "" && r.date == s.date
    ensures ResultId(r) == ResultId(s)
  {
  }

  /** An undated result's identifier begins with its decimal score and a dash,
      and ends with its time taken. */
  lemma UndatedIdParts(r: ExamResult)
    requires r.date == "" && r.score >= 0
    ensures var id := ResultId(r);
            var prefix := NatToString(r.score) + "-";
            |prefix| <= |id| && id[..|prefix|] == prefix &&
            id[|id| - |r.timeTaken|..] == r.timeTaken
  {
    var id := ResultId(r);
    assert id == (NatToString(r.score) + "-") + (IntToString(r.totalQuestions) + "-" + r.timeTaken);
  }

  /** `sentMap[email] || []`. */
  function SentList(sent: map<string, seq<string>>, email: string): seq<string> {
    if email in sent then sent[email] else []
  }

  /** The map after recording that `id` was mailed to `email`: unchanged if it
      is already listed, otherwise `id` is appended to that user's list. */
  function MarkSent(sent: map<string, seq<string>>, email: string, id: string): (m: map<string, seq<string>>)
    ensures email in m && id in m[email]
    ensures id in SentList(sent, email) ==> m == sent
    ensures id !in SentList(sent, email) ==> m[email] == SentList(sent, email) + [id]
    ensures forall e :: e != email ==> (e in m <==> e in sent) && (e in sent ==> m[e] == sent[e])
  {
    if id in SentList(sent, email) then sent else sent[email := SentList(sent, email) + [id]]
  }

  /** Recording the same identifier twice is the same as recording it once. */
  lemma MarkSentIdempotent(sent: map<string, seq<string>>, email: string, id: string)
    ensures MarkSent(MarkSent(sent, email, id), email, id) == MarkSent(sent, email, id)
  {
  }

  /** After any number of repeats an identifier that was new occurs exactly once
      in the user's list. */
  lemma MarkSentOnce(sent: map<string, seq<string>>, email: string, id: string)
    requires id !in SentList(sent, email)
    ensures multiset(MarkSent(MarkSent(sent, email, id), email, id)[email])[id] == 1
  {
    MarkSentIdempotent(sent, email, id);
    var l := SentList(sent, email);
    assert multiset(l)[id] == 0;
    assert multiset(l + [id]) == multiset(l) + multiset{id};
  }

  /** The addresses a mail is sent to: the user, then the administrator's copy
      when that address is a different one. */
  function Recipients(email: string, adminEmail: string): (r: seq<string>)
    ensures 1 <= |r| <= 2 && r[0] == email
    ensures r[|r| - 1] == adminEmail
    ensures |r| == 2 <==> adminEmail != email
  {
    if adminEmail != email then [email, adminEmail] else [email]
  }

  /** `sendEmail`: nothing happens for an identifier already in the user's
      list; otherwise it is appended and persisted, and the result is mailed.
      `adminEmail` is the administrator address the source fixes. */
  method SendEmail(store: Store, email: string, result: ExamResult, adminEmail: string)
    returns (sentTo: seq<string>)
    modifies store`sentExamEmails
    ensures store.sentExamEmails == MarkSent(old(store.sentExamEmails), email, ResultId(result))
    ensures sentTo == if ResultId(result) in SentList(old(store.sentExamEmails), email) then []
                      else Recipients(email, adminEmail)
  {
    var resultId := ResultId(result);
    var sentMap := store.sentExamEmails;
    var userSent := if email in sentMap then sentMap[email] else [];
    if resultId in userSent {
      return [];
    }
    userSent := userSent + [resultId];
    sentMap := sentMap[email := userSent];
    store.sentExamEmails := sentMap;
    sentTo := Recipients(email, adminEmail);
  }

  /** `s.split("\n")`: the pieces between newline characters. */
  function SplitLines(s: string): (lines: seq<string>)
    ensures |lines| >= 1
    ensures '\n' !in s ==> lines == [s]
    decreases |s|
  {
    if s == [] then [""]
    else
      var rest := SplitLines(s[1..]);
      assert s == [s[0]] + s[1..];
      assert forall c :: c in s[1..] ==> c in s;
      if s[0] == '\n' then [""] + rest else [[s[0]] + rest[0]] + rest[1..]
  }

  /** A newline-free line followed by a newline splits off as the first piece. */
  lemma {:induction false} SplitAfterLine(line: string, rest: string)
    requires '\n' !in line
    ensures SplitLines(line + "\n" + rest) == [line] + SplitLines(rest)
    decreases |line|
  {
    if line == [] {
      assert line + "\n" + rest == "\n" + rest;
      assert ("\n" + rest)[1..] == rest;
    } else {
      var s := line + "\n" + rest;
      assert s[0] == line[0];
      assert s[1..] == line[1..] + "\n" + rest;
      SplitAfterLine(line[1..], rest);
      assert [line[0]] + line[1..] == line;
    }
  }

  /** One per-question line: `Q<n>: Correct` or `Q<n>: Incorrect`, numbered from 1. */
  function DetailLine(i: nat, d: Detail): string {
    "Q" + NatToString(i + 1) + ": " + (if d.isCorrect then "Correct" else "Incorrect")
  }

  /** A line starts with `Q` and holds no newline. */
  lemma DetailLineHasNoNewline(i: nat, d: Detail)
    ensures DetailLine(i, d)[0] == 'Q' && '\n' !in DetailLine(i, d)
  {
    var number := NatToString(i + 1);
    assert '\n' !in number by {
      assert forall k :: 0 <= k < |number| ==> IsDigit(number[k]);
    }
    var verdict := if d.isCorrect then "Correct" else "Incorrect";
    assert '\n' !in verdict;
    assert DetailLine(i, d) == "Q" + number + ": " + verdict;
  }

  /** A line ends in `Correct` exactly for a correct answer. */
  lemma DetailLineVerdict(i: nat, d: Detail)
    ensures var line := DetailLine(i, d);
            |line| >= 7 && (line[|line| - 7..] == "Correct" <==> d.isCorrect)
  {
    var verdict := if d.isCorrect then "Correct" else "Incorrect";
    var prefix := "Q" + NatToString(i + 1) + ": ";
    var line := prefix + verdict;
    assert DetailLine(i, d) == line;
    assert line[|line| - 7..] == verdict[|verdict| - 7..];
    assert d.isCorrect || verdict[|verdict| - 7] != 'C';
  }

  /** The lines for `details`, numbered from `first + 1`, joined by newlines. */
  function JoinLines(details: seq<Detail>, first: nat): string
    requires |details| > 0
    decreases |details|
  {
    var head := DetailLine(first, details[0]);
    if |details| == 1 then head else head + "\n" + JoinLines(details[1..], first + 1)
  }

  /** The per-question lines, numbered on from `first`. */
  function Lines(details: seq<Detail>, first: nat): (lines: seq<string>)
    ensures |lines| == |details|
    decreases |details|
  {
    if details == [] then [] else [DetailLine(first, details[0])] + Lines(details[1..], first + 1)
  }

  /** Line i is the line of question `first + i`. */
  lemma {:induction false} LinesAt(details: seq<Detail>, first: nat, i: nat)
    requires i < |details|
    ensures Lines(details, first)[i] == DetailLine(first + i, details[i])
    decreases i
  {
    if i > 0 {
      LinesAt(details[1..], first + 1, i - 1);
      assert details[1..][i - 1] == details[i];
    }
  }

  /** Split at the newlines, the joined text gives back exactly the lines. */
  lemma {:induction false} JoinLinesSplit(details: seq<Detail>, first: nat)
    requires |details| > 0
    ensures SplitLines(JoinLines(details, first)) == Lines(details, first)
    decreases |details|
  {
    var head := DetailLine(first, details[0]);
    DetailLineHasNoNewline(first, details[0]);
    if |details| > 1 {
      var rest := JoinLines(details[1..], first + 1);
      JoinLinesSplit(details[1..], first + 1);
      SplitAfterLine(head, rest);
    }
  }

  /** `details?.map(...).join("\n") || "No details"`: a missing or empty list
      gives `No details`; otherwise one line per question, in order. */
  function DetailsString(details: Option<seq<Detail>>): (text: string)
    ensures details.None? || details.value == [] ==> text == "No details"
    ensures details.Some? && details.value != [] ==>
              |SplitLines(text)| == |details.value| &&
              forall i :: 0 <= i < |details.value| ==> SplitLines(text)[i] == DetailLine(i, details.value[i])
  {
    match details
    case None => "No details"
    case Some(ds) =>
      if |ds| == 0 then "No details"
      else
        JoinLinesSplit(ds, 0);
        assert forall i :: 0 <= i < |ds| ==> Lines(ds, 0)[i] == DetailLine(i, ds[i]) by {
          forall i | 0 <= i < |ds| {
            LinesAt(ds, 0, i);
          }
        }
        JoinLines(ds, 0)
  }

  /** The summary of n details has n lines: exactly n - 1 newline characters. */
  lemma {:induction false} JoinLinesCount(details: seq<Detail>, first: nat)
    requires |details| > 0
    ensures multiset(JoinLines(details, first))['\n'] == |details| - 1
    decreases |details|
  {
    var head := DetailLine(first, details[0]);
    DetailLineHasNoNewline(first, details[0]);
    assert multiset(head)['\n'] == 0;
    if |details| > 1 {
      var rest := JoinLines(details[1..], first + 1);
      JoinLinesCount(details[1..], first + 1);
      assert multiset(head + "\n" + rest) == multiset(head) + multiset("\n") + multiset(rest);
    }
  }

  /** The result view's state: the loaded result and whether this view has
      already sent its mail. */
  class ResultView {
    var result: Option<ExamResult>
    var hasSent: bool

    constructor ()
      ensures result == None && !hasSent
    {
      result := None;
      hasSent := false;
    }

    /** The view's load effect: reads the user's result and, unless its
        identifier is already recorded or this view already sent, sends once. */
    method Load(store: Store, email: string, adminEmail: string) returns (sentTo: seq<string>)
      modifies this, store`sentExamEmails
      ensures result == (if email in store.examResults then Some(store.examResults[email]) else None)
      ensures result.None? ==> store.sentExamEmails == old(store.sentExamEmails) && sentTo == [] &&
                               hasSent == old(hasSent)
      ensures result.Some? && ResultId(result.value) in SentList(old(store.sentExamEmails), email) ==>
                store.sentExamEmails == old(store.sentExamEmails) && sentTo == [] && hasSent
      ensures result.Some? && ResultId(result.value) !in SentList(old(store.sentExamEmails), email) ==>
                hasSent &&
                store.sentExamEmails == (if old(hasSent) then old(store.sentExamEmails)
                                         else MarkSent(old(store.sentExamEmails), email, ResultId(result.value))) &&
                sentTo == (if old(hasSent) then [] else Recipients(email, adminEmail))
    {
      result := if email in store.examResults then Some(store.examResults[email]) else None;
      sentTo := [];
      if result.None? {
        return;
      }
      var resultId := ResultId(result.value);
      if resultId in SentList(store.sentExamEmails, email) {
        hasSent := true;
        return;
      }
      if !hasSent {
        sentTo := SendEmail(store, email, result.value, adminEmail);
        hasSent := true;
      }
    }
  }
}
