/**
 * The grading pass of submit_exam as functions over the answer rows: the sum
 * of the exam's marks, the marks earned, the row each question is left with,
 * and the attempt row that submission writes.
 */
module Grading {
  import opened ExamTypes
  import opened ExamRules

  /** The option stored for a key; an absent row reads as no selection. */
  function Selection(answers: map<AnswerKey, Answer>, k: AnswerKey): Option<string> {
    if k in answers then answers[k].selected else None
  }

  /** The stored answer of the attempt for `q` equals its correct answer. */
  predicate AnsweredCorrectly(answers: map<AnswerKey, Answer>, attemptId: int, q: Question) {
    Selection(answers, (attemptId, q.id)) == Some(q.correctAnswer)
  }

  /** The marks of all questions: the possible total recomputed at submission. */
  function SumMarks(qs: seq<Question>): int {
    if qs == [] then 0 else SumMarks(qs[..|qs| - 1]) + qs[|qs| - 1].marks
  }

  /** The marks of the questions answered correctly. */
  function EarnedMarks(answers: map<AnswerKey, Answer>, attemptId: int, qs: seq<Question>): int {
    if qs == [] then 0
    else
      var q := qs[|qs| - 1];
      EarnedMarks(answers, attemptId, qs[..|qs| - 1]) + (if AnsweredCorrectly(answers, attemptId, q) then q.marks else 0)
  }

  /**
   * The row grading leaves for `q`: the stored selection (None for a row
   * that did not exist), whether it is correct, and the marks it earns.
   */
  function GradedRow(answers: map<AnswerKey, Answer>, attemptId: int, q: Question): Answer {
    var correct := AnsweredCorrectly(answers, attemptId, q);
    Answer(Selection(answers, (attemptId, q.id)), Some(correct), Some(if correct then q.marks else 0))
  }

  /** The answer rows after grading the questions `qs`, one after the other. */
  function GradeAll(answers: map<AnswerKey, Answer>, attemptId: int, qs: seq<Question>): map<AnswerKey, Answer> {
    if qs == [] then answers
    else
      var prev := GradeAll(answers, attemptId, qs[..|qs| - 1]);
      var q := qs[|qs| - 1];
      prev[(attemptId, q.id) := GradedRow(prev, attemptId, q)]
  }

  /** Grading never changes which option a student selected for any key. */
  lemma {:induction false} GradeAllKeepsSelection(answers: map<AnswerKey, Answer>, attemptId: int, qs: seq<Question>, k: AnswerKey)
    ensures Selection(GradeAll(answers, attemptId, qs), k) == Selection(answers, k)
  {
    if qs != [] {
      GradeAllKeepsSelection(answers, attemptId, qs[..|qs| - 1], k);
    }
  }

  /**
   * After grading, every question of the exam has its row for the attempt,
   * and that row says whether the originally stored selection was correct
   * and holds the question's marks or 0 accordingly.
   */
  lemma {:induction false} GradeAllRows(answers: map<AnswerKey, Answer>, attemptId: int, qs: seq<Question>, i: int)
    requires DistinctIds(qs)
    requires 0 <= i < |qs|
    ensures (attemptId, qs[i].id) in GradeAll(answers, attemptId, qs)
    ensures GradeAll(answers, attemptId, qs)[(attemptId, qs[i].id)] == GradedRow(answers, attemptId, qs[i])
  {
    var init := qs[..|qs| - 1];
    var prev := GradeAll(answers, attemptId, init);
    GradeAllKeepsSelection(answers, attemptId, init, (attemptId, qs[i].id));
    if i < |qs| - 1 {
      assert init[i] == qs[i];
      GradeAllRows(answers, attemptId, init, i);
    }
  }

  /** Grading touches no row except the attempt's rows for the graded questions. */
  lemma {:induction false} GradeAllFrame(answers: map<AnswerKey, Answer>, attemptId: int, qs: seq<Question>, k: AnswerKey)
    requires forall q :: q in qs ==> k != (attemptId, q.id)
    ensures k in GradeAll(answers, attemptId, qs) <==> k in answers
    ensures k in answers ==> GradeAll(answers, attemptId, qs)[k] == answers[k]
  {
    if qs != [] {
      assert forall q :: q in qs[..|qs| - 1] ==> q in qs;
      GradeAllFrame(answers, attemptId, qs[..|qs| - 1], k);
    }
  }

  /** With non-negative marks, the score lies between 0 and the possible total. */
  lemma {:induction false} EarnedWithinTotal(answers: map<AnswerKey, Answer>, attemptId: int, qs: seq<Question>)
    requires forall q :: q in qs ==> q.marks >= 0
    ensures 0 <= EarnedMarks(answers, attemptId, qs) <= SumMarks(qs)
  {
    if qs != [] {
      assert forall q :: q in qs[..|qs| - 1] ==> q in qs;
      EarnedWithinTotal(answers, attemptId, qs[..|qs| - 1]);
    }
  }

  /** The attempt row submit_exam writes. */
  function Finalize(a: Attempt, score: int, total: int, passPercentage: real, now: int, autoSubmit: bool): Attempt {
    var pct := Percentage(score, total);
    a.(isSubmitted := true, submittedAt := Some(now), timeTaken := Some(now - a.startedAt),
       score := score, totalMarks := total, percentage := pct,
       isPassed := IsPassed(pct, passPercentage), autoSubmitted := autoSubmit)
  }

  /**
   * What a graded submission records: the attempt is submitted, its score is
   * within [0, total], its percentage within [0, 100], and it passes exactly
   * when score*100 >= pass*total (with no marks to be had the percentage is 0,
   * so it passes exactly when the threshold is at most 0).
   */
  lemma SubmittedSummary(answers: map<AnswerKey, Answer>, attemptId: int, qs: seq<Question>,
                         a: Attempt, passPercentage: real, now: int, autoSubmit: bool)
    requires forall q :: q in qs ==> q.marks >= 0
    ensures var b := Finalize(a, EarnedMarks(answers, attemptId, qs), SumMarks(qs), passPercentage, now, autoSubmit);
      && b.isSubmitted
      && 0 <= b.score <= b.totalMarks == SumMarks(qs)
      && 0.0 <= b.percentage <= 100.0
      && (b.totalMarks > 0 ==> (b.isPassed <==> (b.score as real) * 100.0 >= passPercentage * (b.totalMarks as real)))
      && (b.totalMarks == 0 ==> (b.isPassed <==> passPercentage <= 0.0))
  {
    var score, total := EarnedMarks(answers, attemptId, qs), SumMarks(qs);
    EarnedWithinTotal(answers, attemptId, qs);
    PercentageFacts(score, total, passPercentage);
    var b := Finalize(a, score, total, passPercentage, now, autoSubmit);
    assert b.score == score && b.totalMarks == total;
    assert b.percentage == Percentage(score, total) && b.isPassed == IsPassed(b.percentage, passPercentage);
  }

  /**
   * The percentage rules of ExamRules joined for the row submit writes: the
   * range from PercentageInRange, the pass test from PassedIffCrossMultiplied
   * when there are marks to be had, and the zero-total case.
   */
  lemma PercentageFacts(score: int, total: int, passPercentage: real)
    requires 0 <= score <= total
    ensures 0.0 <= Percentage(score, total) <= 100.0
    ensures total > 0 ==> (IsPassed(Percentage(score, total), passPercentage) <==> (score as real) * 100.0 >= passPercentage * (total as real))
    ensures total == 0 ==> (IsPassed(Percentage(score, total), passPercentage) <==> passPercentage <= 0.0)
  {
    PercentageInRange(score, total);
    if total > 0 {
      PassedIffCrossMultiplied(score, total, passPercentage);
    }
  }
}
