/** The admin dashboard's tables and summary figures, built from the stored
    `students` and `examResults` tables. */
module AdminDashboard {
  import opened Records
  import opened Rounding

  /** `keys` lists every key of `m` once: the order `Object.keys` gives. */
  predicate Enumerates<V>(keys: seq<string>, m: map<string, V>) {
    (forall i, j :: 0 <= i < j < |keys| ==> keys[i] != keys[j]) &&
    (forall k :: k in m ==> k in keys) &&
    (forall i :: 0 <= i < |keys| ==> keys[i] in m)
  }

  /** The set of keys a listing mentions. */
  function KeySet(keys: seq<string>): set<string> {
    if keys == [] then {} else KeySet(keys[..|keys| - 1]) + {keys[|keys| - 1]}
  }

  /** A listing without repeats mentions exactly its entries, each once. */
  lemma {:induction false} KeySetOfDistinct(keys: seq<string>)
    requires forall i, j :: 0 <= i < j < |keys| ==> keys[i] != keys[j]
    ensures |KeySet(keys)| == |keys|
    ensures forall k :: k in KeySet(keys) <==> k in keys
  {
    if keys != [] {
      var rest, last := keys[..|keys| - 1], keys[|keys| - 1];
      assert keys == rest + [last];
      assert forall i :: 0 <= i < |rest| ==> rest[i] == keys[i] != last;
      KeySetOfDistinct(rest);
    }
  }

  /** A listing of distinct keys has as many entries as the map has keys. */
  lemma EnumerationSize<V>(keys: seq<string>, m: map<string, V>)
    requires Enumerates(keys, m)
    ensures |keys| == |m|
  {
    KeySetOfDistinct(keys);
    assert m.Keys == KeySet(keys);
  }

  /** A row of the students table: `{email: key, ...student}`. The spread comes
      last, so an entry that has its own `email` field shows that one. */
  datatype StudentRow = StudentRow(email: string, student: Student)

  /** The email a row shows: a form-written entry's own email, otherwise its key. */
  function RowEmail(key: string, s: Student): (email: string)
    ensures s.Registered? ==> email == key
    ensures s.FormUser? ==> email == s.email
  {
    if s.FormUser? then s.email else key
  }

  /** The students table, in key order. */
  function StudentList(students: map<string, Student>, keys: seq<string>): (rows: seq<StudentRow>)
    requires Enumerates(keys, students)
    ensures |rows| == |keys| == |students|
    ensures forall i :: 0 <= i < |keys| ==>
              rows[i].student == students[keys[i]] && rows[i].email == RowEmail(keys[i], students[keys[i]])
    ensures forall i :: 0 <= i < |keys| && students[keys[i]].Registered? ==> rows[i].email == keys[i]
  {
    EnumerationSize(keys, students);
    seq(|keys|, i requires 0 <= i < |keys| => StudentRow(RowEmail(keys[i], students[keys[i]]), students[keys[i]]))
  }

  /** The results table: the stored results in key order, one per email. */
  function ResultList(results: map<string, ExamResult>, keys: seq<string>): (rows: seq<ExamResult>)
    requires Enumerates(keys, results)
    ensures |rows| == |keys| == |results|
    ensures forall i :: 0 <= i < |keys| ==> rows[i] == results[keys[i]]
  {
    EnumerationSize(keys, results);
    seq(|keys|, i requires 0 <= i < |keys| => results[keys[i]])
  }

  /** Every stored result appears in the results table. */
  lemma ResultListComplete(results: map<string, ExamResult>, keys: seq<string>, e: string)
    requires Enumerates(keys, results) && e in results
    ensures results[e] in ResultList(results, keys)
  {
    var i :| 0 <= i < |keys| && keys[i] == e;
    assert ResultList(results, keys)[i] == results[e];
  }

  /** `students.filter(s => s.averageScore > 0).length`. */
  function ActiveCount(rows: seq<StudentRow>): (n: nat)
    ensures n <= |rows|
    ensures n == 0 <==> forall i :: 0 <= i < |rows| ==> rows[i].student.averageScore <= 0
  {
    if rows == [] then 0
    else ActiveCount(rows[1..]) + (if rows[0].student.averageScore > 0 then 1 else 0)
  }

  /** `students.reduce((sum, s) => sum + s.averageScore, 0)`, summed from the
      right; the ensures gives the left-to-right step the source takes. */
  function ScoreSum(rows: seq<StudentRow>): (sum: int)
    ensures rows == [] ==> sum == 0
    ensures rows != [] ==> sum == ScoreSum(rows[..|rows| - 1]) + rows[|rows| - 1].student.averageScore
    decreases |rows|
  {
    if rows == [] then 0
    else
      var rest := rows[1..];
      assert rest != [] ==> rest[..|rest| - 1] == rows[..|rows| - 1][1..];
      rows[0].student.averageScore + ScoreSum(rest)
  }

  /** Scores within 0..100 sum to within 0..100 times their number. */
  lemma {:induction false} ScoreSumBounds(rows: seq<StudentRow>)
    requires forall i :: 0 <= i < |rows| ==> 0 <= rows[i].student.averageScore <= 100
    ensures 0 <= ScoreSum(rows) <= 100 * |rows|
  {
    if rows != [] {
      ScoreSumBounds(rows[1..]);
    }
  }

  /** The dashboard's average score: 0 with no students, otherwise the rounded
      mean of their average scores, which stays within 0..100 when they do. */
  function AverageScore(rows: seq<StudentRow>): (avg: int)
    ensures rows == [] ==> avg == 0
    ensures rows != [] ==> 2 * |rows| * avg <= 2 * ScoreSum(rows) + |rows| < 2 * |rows| * avg + 2 * |rows|
    ensures (forall i :: 0 <= i < |rows| ==> 0 <= rows[i].student.averageScore <= 100) ==>
              0 <= avg <= 100
  {
    if |rows| > 0 then
      if forall i :: 0 <= i < |rows| ==> 0 <= rows[i].student.averageScore <= 100 then
        ScoreSumBounds(rows);
        RoundDivBounds(ScoreSum(rows), |rows|);
        RoundDiv(ScoreSum(rows), |rows|)
      else RoundDiv(ScoreSum(rows), |rows|)
    else 0
  }
}
