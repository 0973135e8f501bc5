/**
 * The expiry sweep, a maintenance job run beside the routes: every
 * unsubmitted attempt whose time is up is forced to submitted with its score
 * columns zeroed, without grading. All rows use one `now`.
 */
module CleanExpired {
  import opened ExamTypes
  import opened ExamRules
  import opened OnlineExams

  /** The rows the sweep's query returns: unsubmitted attempts joined with their (existing) exam. */
  function UnsubmittedRows(attempts: map<int, Attempt>, exams: map<int, Exam>): set<int> {
    set id | id in attempts && !attempts[id].isSubmitted && attempts[id].examId in exams
  }

  /** The attempts the sweep selects at `now`: unsubmitted, with an exam, and out of time. */
  function ExpiredIds(attempts: map<int, Attempt>, exams: map<int, Exam>, now: int): set<int> {
    set id | id in attempts && !attempts[id].isSubmitted && attempts[id].examId in exams
                            && Expired(attempts[id].startedAt, now, exams[attempts[id].examId].duration)
  }

  /**
   * The row update of the sweep: submitted at `now` with scored_marks,
   * total_marks and percentage zeroed; putting those five columns back gives
   * the original row, so no other column is written.
   */
  function ForceSubmitted(a: Attempt, now: int): (b: Attempt)
    ensures b.isSubmitted && b.submittedAt == Some(now)
    ensures b.scoredMarks == 0 && b.totalMarks == 0 && b.percentage == 0.0
    ensures b.(isSubmitted := a.isSubmitted, submittedAt := a.submittedAt, scoredMarks := a.scoredMarks,
               totalMarks := a.totalMarks, percentage := a.percentage) == a
  {
    a.(isSubmitted := true, submittedAt := Some(now), scoredMarks := 0, totalMarks := 0, percentage := 0.0)
  }

  /** The attempts table after a sweep at `now`. */
  function SweepAll(attempts: map<int, Attempt>, exams: map<int, Exam>, now: int): map<int, Attempt> {
    map id | id in attempts :: if id in ExpiredIds(attempts, exams, now) then ForceSubmitted(attempts[id], now)
                               else attempts[id]
  }

  /**
   * A sweep finalizes exactly the expired attempts and leaves every other row
   * as it was; in particular an already submitted attempt is never touched.
   */
  lemma SweepEffect(attempts: map<int, Attempt>, exams: map<int, Exam>, now: int, id: int)
    requires id in attempts
    ensures id in SweepAll(attempts, exams, now)
    ensures SweepAll(attempts, exams, now)[id] != attempts[id] ==> id in ExpiredIds(attempts, exams, now)
    ensures id in ExpiredIds(attempts, exams, now) <==>
              && !attempts[id].isSubmitted && attempts[id].examId in exams
              && attempts[id].isSubmitted != SweepAll(attempts, exams, now)[id].isSubmitted
    ensures attempts[id].isSubmitted ==> SweepAll(attempts, exams, now)[id] == attempts[id]
  {
  }

  /** After a sweep at `now` nothing is left that a sweep at `now` would select. */
  lemma SweepLeavesNoneExpired(attempts: map<int, Attempt>, exams: map<int, Exam>, now: int)
    ensures ExpiredIds(SweepAll(attempts, exams, now), exams, now) == {}
  {
    var swept := SweepAll(attempts, exams, now);
    forall id | id in swept && !swept[id].isSubmitted && swept[id].examId in exams
      ensures !Expired(swept[id].startedAt, now, exams[swept[id].examId].duration)
    {
      assert id !in ExpiredIds(attempts, exams, now);
    }
  }

  /**
   * Running the sweep again changes nothing: with the same `now` the table
   * stays as it is, and at any later time the rows the first run finalized
   * stay as the first run left them.
   */
  lemma {:induction false} SweepIdempotent(attempts: map<int, Attempt>, exams: map<int, Exam>, now: int, later: int)
    ensures SweepAll(SweepAll(attempts, exams, now), exams, now) == SweepAll(attempts, exams, now)
    ensures forall id :: id in ExpiredIds(attempts, exams, now) ==>
              SweepAll(SweepAll(attempts, exams, now), exams, later)[id] == SweepAll(attempts, exams, now)[id]
  {
    var swept := SweepAll(attempts, exams, now);
    SweepLeavesNoneExpired(attempts, exams, now);
    assert SweepAll(swept, exams, now) == swept;
    forall id | id in ExpiredIds(attempts, exams, now)
      ensures SweepAll(swept, exams, later)[id] == swept[id]
    {
      assert swept[id].isSubmitted;
    }
  }

  /** A sweep only closes attempts, so it keeps "at most one open attempt per (exam, student)". */
  lemma SweepKeepsAtMostOneOpen(attempts: map<int, Attempt>, exams: map<int, Exam>, now: int)
    requires AtMostOneOpen(attempts)
    ensures AtMostOneOpen(SweepAll(attempts, exams, now))
  {
  }

  /**
   * The sweep and start_exam draw the same line: for the student's open
   * attempt at an available exam, start_exam answers "Time has expired"
   * exactly when the sweep at the same `now` would finalize that attempt.
   */
  lemma SweepAgreesWithStart(exams: map<int, Exam>, questions: map<int, seq<Question>>,
                             attempts: map<int, Attempt>, answers: map<AnswerKey, Answer>,
                             examId: int, student: int, now: int, freshId: int, id: int)
    requires AtMostOneOpen(attempts) && freshId !in attempts
    requires examId in exams && exams[examId].isPublished && exams[examId].isActive
    requires id in OpenIds(attempts, examId, student)
    ensures StartSpec(exams, questions, attempts, answers, examId, student, now, freshId).reply
              == BadRequest("Time has expired. Please submit the exam.")
            <==> id in ExpiredIds(attempts, exams, now)
  {
  }

  /** Proof step for the scan: a non-empty set of rows has a row to take next. It models nothing of the sweep. */
  lemma SomeRow(rows: set<int>)
    requires rows != {}
    ensures exists id :: id in rows
  {
    if forall id :: id !in rows {
      assert false;
    }
  }

  /**
   * The scan of clean_expired_attempts: over the rows of the query, collect
   * the ids whose elapsed time reaches the limit, each once.
   */
  method CollectExpired(attempts: map<int, Attempt>, exams: map<int, Exam>, now: int) returns (expired: seq<int>)
    ensures forall x :: x in expired <==> x in ExpiredIds(attempts, exams, now)
    ensures |expired| == |ExpiredIds(attempts, exams, now)|
  {
    ghost var selected := ExpiredIds(attempts, exams, now);
    var rows := UnsubmittedRows(attempts, exams);
    ghost var scanned: set<int> := {};
    ghost var found: set<int> := {};
    expired := [];
    while rows != {}
      invariant rows !! scanned && rows + scanned == UnsubmittedRows(attempts, exams)
      invariant found == selected * scanned
      invariant |expired| == |found|
      invariant forall x :: x in expired <==> x in found
      decreases rows
    {
      SomeRow(rows);
      var id :| id in rows;
      var attempt := attempts[id];
      if Expired(attempt.startedAt, now, exams[attempt.examId].duration) {
        expired := expired + [id];
        found := found + {id};
      }
      rows := rows - {id};
      scanned := scanned + {id};
    }
    assert found == selected;
  }

  /**
   * clean_expired_attempts: the expired attempts are collected; if there are
   * any, each is updated. `cleaned` stands for the count the job prints; the
   * message itself is not modelled. Nothing but the attempts table changes.
   */
  method CleanExpiredAttempts(db: ExamStore, now: int) returns (cleaned: nat)
    requires db.Valid()
    modifies db
    ensures db.Valid()
    ensures db.attempts == SweepAll(old(db.attempts), old(db.exams), now)
    ensures cleaned == |ExpiredIds(old(db.attempts), old(db.exams), now)|
    ensures cleaned == 0 ==> db.attempts == old(db.attempts)
    ensures db.exams == old(db.exams) && db.questions == old(db.questions) && db.answers == old(db.answers)
    ensures db.nextExamId == old(db.nextExamId) && db.nextQuestionId == old(db.nextQuestionId)
    ensures db.nextAttemptId == old(db.nextAttemptId)
  {
    var expired := CollectExpired(db.attempts, db.exams, now);
    assert forall x :: x in expired ==> x in db.attempts;
    if |expired| > 0 {
      var i := 0;
      while i < |expired|
        invariant 0 <= i <= |expired|
        invariant db.attempts.Keys == old(db.attempts).Keys
        invariant forall id :: id in db.attempts ==>
                    db.attempts[id] == if id in expired[..i] then ForceSubmitted(old(db.attempts)[id], now)
                                       else old(db.attempts)[id]
        invariant db.exams == old(db.exams) && db.questions == old(db.questions) && db.answers == old(db.answers)
        invariant db.nextExamId == old(db.nextExamId) && db.nextQuestionId == old(db.nextQuestionId)
        invariant db.nextAttemptId == old(db.nextAttemptId)
      {
        var id := expired[i];
        db.attempts := db.attempts[id := ForceSubmitted(db.attempts[id], now)];
        assert expired[..i + 1] == expired[..i] + [id];
        i := i + 1;
      }
      assert expired[..|expired|] == expired;
    }
    ghost var swept := SweepAll(old(db.attempts), old(db.exams), now);
    assert db.attempts.Keys == swept.Keys;
    forall id | id in db.attempts
      ensures db.attempts[id] == swept[id]
    {
      assert id in expired <==> id in ExpiredIds(old(db.attempts), old(db.exams), now);
    }
    cleaned := |expired|;
    SweepKeepsAtMostOneOpen(old(db.attempts), old(db.exams), now);
  }
}
