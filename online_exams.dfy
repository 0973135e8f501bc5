/**
 * The online-exam routes over an in-memory store: the question catalog rules
 * (create_exam's count bound, add_question, delete_question) and the attempt
 * lifecycle (start_exam, save_answer, submit_exam, the guards of
 * get_exam_results). The caller's id and role are explicit parameters, and
 * the clock is an integer `now` in seconds.
 */
module OnlineExams {
  import opened ExamTypes
  import opened ExamRules
  import opened Grading

  /** What start_exam returns on success: a resumed attempt, or a new one. */
  datatype StartReply =
    | Resumed(attemptId: int, startedAt: int, timeRemaining: int, savedAnswers: map<int, Option<string>>)
    | Started(attemptId: int, startedAt: int, durationMinutes: int)

  /** The reply of start_exam together with the attempts table it leaves. */
  datatype StartStep = StartStep(reply: Outcome<StartReply>, attempts: map<int, Attempt>)

  datatype AddedQuestion = AddedQuestion(id: int, order: int, questionsRemaining: int)

  datatype SubmitReply = SubmitReply(
    attemptId: int,
    score: int,
    totalMarks: int,
    percentage: real,
    isPassed: bool,
    timeTaken: (int, int),
    autoSubmitted: bool)

  datatype ResultsSummary = ResultsSummary(attempt: Attempt, timeTakenFormatted: Option<(int, int)>)

  /** `a` is an unsubmitted attempt of `student` at exam `examId`. */
  predicate IsOpenFor(a: Attempt, examId: int, student: int) {
    a.examId == examId && a.studentId == student && !a.isSubmitted
  }

  /** The ids of the unsubmitted attempts of `student` at `examId`. */
  function OpenIds(attempts: map<int, Attempt>, examId: int, student: int): set<int> {
    set id | id in attempts && IsOpenFor(attempts[id], examId, student)
  }

  /** The ids of the submitted attempts of `student` at `examId`. */
  function SubmittedIds(attempts: map<int, Attempt>, examId: int, student: int): set<int> {
    set id | id in attempts && attempts[id].examId == examId && attempts[id].studentId == student
                            && attempts[id].isSubmitted
  }

  /** No (exam, student) pair has two unsubmitted attempts. */
  predicate AtMostOneOpen(attempts: map<int, Attempt>) {
    forall i, j :: i in attempts && j in attempts && !attempts[i].isSubmitted && !attempts[j].isSubmitted
                   && attempts[i].examId == attempts[j].examId && attempts[i].studentId == attempts[j].studentId
                   ==> i == j
  }

  /** The number of questions an exam currently has. */
  function QuestionCount(questions: map<int, seq<Question>>, examId: int): nat {
    if examId in questions then |questions[examId]| else 0
  }

  /** The question ids of the answer rows of an attempt. */
  function AnsweredQuestionIds(answers: map<AnswerKey, Answer>, attemptId: int): set<int> {
    set k | k in answers && k.0 == attemptId :: k.1
  }

  /** The saved answers of an attempt, keyed by question id, as a resumed start returns them. */
  function SavedAnswers(answers: map<AnswerKey, Answer>, attemptId: int): (m: map<int, Option<string>>)
    ensures forall q :: q in m <==> (attemptId, q) in answers
    ensures forall q :: q in m ==> m[q] == answers[(attemptId, q)].selected
  {
    map q | q in AnsweredQuestionIds(answers, attemptId) :: answers[(attemptId, q)].selected
  }

  /** The row start_exam adds; the unset columns take their defaults. */
  function NewAttempt(examId: int, student: int, attemptNumber: int, questionCount: int, now: int): (a: Attempt)
    ensures IsOpenFor(a, examId, student) && a.startedAt == now
    ensures a.attemptNumber == attemptNumber && a.totalMarks == questionCount
    ensures a.submittedAt == None && a.timeTaken == None && !a.autoSubmitted
  {
    Attempt(examId, student, attemptNumber, now, false, None, None, 0, 0, questionCount, 0.0, false, false)
  }

  /** The exam exists and students may take it: published and active. */
  predicate Available(exams: map<int, Exam>, examId: int) {
    examId in exams && exams[examId].isPublished && exams[examId].isActive
  }

  /**
   * start_exam as a function of the tables. Refusals, in this order: a
   * missing exam, an unpublished or inactive exam, an open attempt whose time
   * is up, a retake the exam forbids, an exam without questions. Refusals and
   * resumption leave the attempts table as it was; a new attempt is numbered
   * after the submitted ones, and afterwards the student has exactly one open
   * attempt at the exam: the one returned.
   */
  ghost function StartSpec(exams: map<int, Exam>, questions: map<int, seq<Question>>,
                           attempts: map<int, Attempt>, answers: map<AnswerKey, Answer>,
                           examId: int, student: int, now: int, freshId: int): (s: StartStep)
    requires AtMostOneOpen(attempts)
    requires freshId !in attempts
    ensures examId !in exams ==> s.reply == NotFound("Exam not found")
    ensures examId in exams && !(exams[examId].isPublished && exams[examId].isActive)
            ==> s.reply == Forbidden("This exam is not available")
    ensures forall id :: id in OpenIds(attempts, examId, student) && Available(exams, examId) ==>
              if Expired(attempts[id].startedAt, now, exams[examId].duration)
              then s.reply == BadRequest("Time has expired. Please submit the exam.")
              else s.reply == Ok(Resumed(id, attempts[id].startedAt, TimeRemaining(attempts[id].startedAt, now, exams[examId].duration),
                                         SavedAnswers(answers, id)))
    ensures Available(exams, examId) && OpenIds(attempts, examId, student) == {}
            && |SubmittedIds(attempts, examId, student)| > 0 && !exams[examId].allowRetake
            ==> s.reply == Forbidden("Retakes are not allowed for this exam")
    ensures Available(exams, examId) && OpenIds(attempts, examId, student) == {}
            && (|SubmittedIds(attempts, examId, student)| == 0 || exams[examId].allowRetake)
            ==> if QuestionCount(questions, examId) == 0
                then s.reply == BadRequest("This exam has no questions yet. Please contact your teacher.")
                else s.reply == Ok(Started(freshId, now, exams[examId].duration))
    ensures !s.reply.Ok? ==> s.attempts == attempts
    ensures s.reply.Ok? && s.reply.value.Resumed? ==> s.attempts == attempts && s.reply.value.timeRemaining > 0
    ensures s.reply.Ok? && s.reply.value.Started? ==>
              && OpenIds(attempts, examId, student) == {}
              && s.reply.value.attemptId == freshId
              && freshId in s.attempts
              && s.attempts == attempts[freshId := s.attempts[freshId]]
              && s.attempts[freshId].attemptNumber == |SubmittedIds(attempts, examId, student)| + 1
              && s.attempts[freshId].totalMarks == QuestionCount(questions, examId) > 0
              && s.attempts[freshId].startedAt == now
              && s.attempts[freshId] == NewAttempt(examId, student, |SubmittedIds(attempts, examId, student)| + 1,
                                                   QuestionCount(questions, examId), now)
    ensures s.reply.Ok? ==> OpenIds(s.attempts, examId, student) == {s.reply.value.attemptId}
    ensures AtMostOneOpen(s.attempts)
  {
    if examId !in exams then StartStep(NotFound("Exam not found"), attempts)
    else
      var exam := exams[examId];
      if !exam.isPublished || !exam.isActive then StartStep(Forbidden("This exam is not available"), attempts)
      else if exists id :: id in attempts && IsOpenFor(attempts[id], examId, student) then
        var id :| id in attempts && IsOpenFor(attempts[id], examId, student);
        OpenIdsSingleton(attempts, examId, student, id);
        var a := attempts[id];
        if Expired(a.startedAt, now, exam.duration) then
          StartStep(BadRequest("Time has expired. Please submit the exam."), attempts)
        else
          StartStep(Ok(Resumed(id, a.startedAt, TimeRemaining(a.startedAt, now, exam.duration), SavedAnswers(answers, id))), attempts)
      else
        var prior := |SubmittedIds(attempts, examId, student)|;
        if prior > 0 && !exam.allowRetake then StartStep(Forbidden("Retakes are not allowed for this exam"), attempts)
        else
          var count := QuestionCount(questions, examId);
          if count == 0 then
            StartStep(BadRequest("This exam has no questions yet. Please contact your teacher."), attempts)
          else
            var added := attempts[freshId := NewAttempt(examId, student, prior + 1, count, now)];
            AddOpenAttempt(attempts, examId, student, freshId, added[freshId]);
            StartStep(Ok(Started(freshId, now, exam.duration)), added)
  }

  /** Under AtMostOneOpen, an open attempt is the only one of its (exam, student). */
  lemma OpenIdsSingleton(attempts: map<int, Attempt>, examId: int, student: int, id: int)
    requires AtMostOneOpen(attempts)
    requires id in OpenIds(attempts, examId, student)
    ensures OpenIds(attempts, examId, student) == {id}
  {
    forall x | x in OpenIds(attempts, examId, student)
      ensures x == id
    {
      assert IsOpenFor(attempts[x], examId, student) && IsOpenFor(attempts[id], examId, student);
    }
  }

  /** Adding an open attempt for a pair that had none keeps AtMostOneOpen, and it is the pair's only one. */
  lemma AddOpenAttempt(attempts: map<int, Attempt>, examId: int, student: int, freshId: int, a: Attempt)
    requires AtMostOneOpen(attempts)
    requires forall j :: j in attempts ==> !IsOpenFor(attempts[j], examId, student)
    requires freshId !in attempts && IsOpenFor(a, examId, student)
    ensures AtMostOneOpen(attempts[freshId := a])
    ensures OpenIds(attempts[freshId := a], examId, student) == {freshId}
  {
    var added := attempts[freshId := a];
    assert freshId in OpenIds(added, examId, student);
    forall x | x in OpenIds(added, examId, student)
      ensures x == freshId
    {
    }
  }

  /**
   * A second start_exam right after one that created an attempt creates
   * nothing: it resumes that attempt or refuses, so no pair ever gets a
   * second open attempt.
   */
  lemma StartTwiceCreatesOnce(exams: map<int, Exam>, questions: map<int, seq<Question>>,
                              attempts: map<int, Attempt>, answers: map<AnswerKey, Answer>,
                              examId: int, student: int, now1: int, now2: int, freshId1: int, freshId2: int)
    requires AtMostOneOpen(attempts)
    requires freshId1 !in attempts
    requires StartSpec(exams, questions, attempts, answers, examId, student, now1, freshId1).reply.Ok?
    requires freshId2 !in StartSpec(exams, questions, attempts, answers, examId, student, now1, freshId1).attempts
    ensures var s1 := StartSpec(exams, questions, attempts, answers, examId, student, now1, freshId1);
            var s2 := StartSpec(exams, questions, s1.attempts, answers, examId, student, now2, freshId2);
            s2.attempts == s1.attempts && (s2.reply.Ok? ==> s2.reply.value.Resumed? && s2.reply.value.attemptId == s1.reply.value.attemptId)
  {
  }

  /** The guards save_answer and submit_exam share: the attempt exists, is the caller's, and is open. */
  function AttemptGuard(attempts: map<int, Attempt>, attemptId: int, caller: int): (r: Outcome<Attempt>)
    ensures r.Ok? <==> attemptId in attempts && attempts[attemptId].studentId == caller
                       && !attempts[attemptId].isSubmitted
    ensures r.Ok? ==> r.value == attempts[attemptId]
    ensures attemptId !in attempts ==> r == NotFound("Attempt not found")
    ensures attemptId in attempts && attempts[attemptId].studentId != caller ==> r == Forbidden("Unauthorized")
    ensures attemptId in attempts && attempts[attemptId].studentId == caller && attempts[attemptId].isSubmitted
            ==> r == BadRequest("Exam already submitted")
  {
    if attemptId !in attempts then NotFound("Attempt not found")
    else if attempts[attemptId].studentId != caller then Forbidden("Unauthorized")
    else if attempts[attemptId].isSubmitted then BadRequest("Exam already submitted")
    else Ok(attempts[attemptId])
  }

  /** A refusal carried over to another reply type. */
  function Refusal<T>(o: Outcome<Attempt>): Outcome<T>
    requires !o.Ok?
  {
    match o
    case NotFound(m) => NotFound(m)
    case Forbidden(m) => Forbidden(m)
    case BadRequest(m) => BadRequest(m)
    case ServerError(m) => ServerError(m)
  }

  /**
   * The upsert of save_answer: the key ends with exactly one row holding the
   * new selection (an existing row keeps its grading columns), and every
   * other row is as it was.
   */
  function Upsert(answers: map<AnswerKey, Answer>, k: AnswerKey, selection: Option<string>)
    : (r: map<AnswerKey, Answer>)
    ensures r.Keys == answers.Keys + {k}
    ensures r[k].selected == selection
    ensures k in answers ==> r[k] == answers[k].(selected := selection)
    ensures k !in answers ==> r[k] == Answer(selection, None, None)
    ensures forall k' :: k' in answers && k' != k ==> r[k'] == answers[k']
  {
    if k in answers then answers[k := answers[k].(selected := selection)]
    else answers[k := Answer(selection, None, None)]
  }

  /**
   * The guards of get_exam_results: the attempt exists; a student may only
   * see an own attempt (staff may see any); the attempt must be submitted.
   * The formatted time is absent when no (or a zero) time was recorded.
   */
  function ResultsAccess(attempts: map<int, Attempt>, attemptId: int, caller: int, role: Role)
    : (r: Outcome<ResultsSummary>)
    ensures r.Ok? <==> attemptId in attempts && (role == Student ==> attempts[attemptId].studentId == caller)
                       && attempts[attemptId].isSubmitted
    ensures attemptId !in attempts ==> r == NotFound("Attempt not found")
    ensures attemptId in attempts && role == Student && attempts[attemptId].studentId != caller
            ==> r == Forbidden("Unauthorized")
    ensures attemptId in attempts && (role == Student ==> attempts[attemptId].studentId == caller)
            && !attempts[attemptId].isSubmitted
            ==> r == BadRequest("Exam not yet submitted")
    ensures r.Ok? ==> r.value.attempt == attempts[attemptId]
    ensures r.Ok? ==>
              var t := attempts[attemptId].timeTaken;
              && (r.value.timeTakenFormatted.Some? <==> t.Some? && t.value != 0)
              && (r.value.timeTakenFormatted.Some? ==>
                    && r.value.timeTakenFormatted.value.0 * 60 + r.value.timeTakenFormatted.value.1 == t.value
                    && 0 <= r.value.timeTakenFormatted.value.1 < 60
                    && r.value.timeTakenFormatted.value == TimeDisplay(t.value))
  {
    if attemptId !in attempts then NotFound("Attempt not found")
    else
      var a := attempts[attemptId];
      if role == Student && a.studentId != caller then Forbidden("Unauthorized")
      else if !a.isSubmitted then BadRequest("Exam not yet submitted")
      else
        var formatted := if a.timeTaken.None? || a.timeTaken.value == 0 then None
                         else Some(TimeDisplay(a.timeTaken.value));
        Ok(ResultsSummary(a, formatted))
  }

  /** The questions of one exam: at most the declared number, numbered 1..N, distinct ids, A..D answers. */
  predicate CatalogValid(qs: seq<Question>, totalQuestions: int, nextQuestionId: int) {
    && |qs| <= totalQuestions
    && Contiguous(qs)
    && DistinctIds(qs)
    && (forall i :: 0 <= i < |qs| ==> qs[i].id < nextQuestionId && IsOptionLetter(qs[i].correctAnswer))
  }

  /** The four tables of the online-exam subsystem and the next ids the database would assign. */
  class ExamStore {
    var exams: map<int, Exam>
    var questions: map<int, seq<Question>>
    var attempts: map<int, Attempt>
    var answers: map<AnswerKey, Answer>
    var nextExamId: int
    var nextQuestionId: int
    var nextAttemptId: int

    ghost predicate Valid()
      reads this
    {
      && questions.Keys == exams.Keys
      && (forall e :: e in exams ==> e < nextExamId && QuestionCountAllowed(exams[e].totalQuestions))
      && (forall e :: e in questions ==> CatalogValid(questions[e], exams[e].totalQuestions, nextQuestionId))
      && (forall id :: id in attempts ==> id < nextAttemptId)
      && AtMostOneOpen(attempts)
    }

    constructor ()
      ensures Valid()
      ensures exams == map[] && questions == map[] && attempts == map[] && answers == map[]
    {
      exams, questions, attempts, answers := map[], map[], map[], map[];
      nextExamId, nextQuestionId, nextAttemptId := 1, 1, 1;
    }

    /**
     * create_exam: the declared question count must lie in 1..40; a new exam
     * starts unpublished and without questions.
     */
    method CreateExam(duration: int, totalQuestions: int, passPercentage: real, allowRetake: bool, isActive: bool)
      returns (r: Outcome<int>)
      requires Valid()
      modifies this
      ensures Valid()
      ensures r.Ok? <==> QuestionCountAllowed(totalQuestions)
      ensures !r.Ok? ==> r == BadRequest("Total questions must be between 1 and 40") && unchanged(this)
      ensures r.Ok? ==>
                && r.value == old(nextExamId) && r.value !in old(exams)
                && exams == old(exams)[r.value := Exam(duration, totalQuestions, passPercentage, allowRetake, isActive, false)]
                && questions == old(questions)[r.value := []]
                && nextExamId == old(nextExamId) + 1
      ensures attempts == old(attempts) && answers == old(answers)
      ensures nextQuestionId == old(nextQuestionId) && nextAttemptId == old(nextAttemptId)
    {
      if !QuestionCountAllowed(totalQuestions) {
        return BadRequest("Total questions must be between 1 and 40");
      }
      var id := nextExamId;
      exams := exams[id := Exam(duration, totalQuestions, passPercentage, allowRetake, isActive, false)];
      questions := questions[id := []];
      nextExamId := nextExamId + 1;
      r := Ok(id);
    }

    /**
     * add_question: refused for a missing exam, for an exam that already has
     * its declared number of questions, and for missing texts or a correct
     * answer outside A..D; otherwise the question is appended with order
     * count+1 and its upper-cased correct answer.
     */
    method AddQuestion(examId: int, text: string, a: string, b: string, c: string, d: string,
                       correct: string, explanation: string, marks: int)
      returns (r: Outcome<AddedQuestion>)
      requires Valid()
      modifies this
      ensures Valid()
      ensures exams == old(exams) && attempts == old(attempts) && answers == old(answers)
      ensures nextExamId == old(nextExamId) && nextAttemptId == old(nextAttemptId)
      ensures examId !in old(exams) ==> r == NotFound("Exam not found")
      ensures examId in old(exams) && QuestionCount(old(questions), examId) >= old(exams)[examId].totalQuestions
              ==> r == BadRequest("Exam already has maximum " + NatToString(old(exams)[examId].totalQuestions) + " questions")
      ensures examId in old(exams) && QuestionCount(old(questions), examId) < old(exams)[examId].totalQuestions
              && !ValidateQuestion(text, a, b, c, d, correct).Ok?
              ==> r == BadRequest(ValidateQuestion(text, a, b, c, d, correct).message)
      ensures r.Ok? <==> examId in old(exams)
                         && QuestionCount(old(questions), examId) < old(exams)[examId].totalQuestions
                         && ValidateQuestion(text, a, b, c, d, correct).Ok?
      ensures !r.Ok? ==> unchanged(this)
      ensures r.Ok? ==>
                var qs := old(questions)[examId];
                && r.value == AddedQuestion(old(nextQuestionId), |qs| + 1, exams[examId].totalQuestions - (|qs| + 1))
                && questions == old(questions)[examId := qs + [Question(old(nextQuestionId), text, a, b, c, d,
                                                                         Upper(correct), explanation, |qs| + 1, marks)]]
                && nextQuestionId == old(nextQuestionId) + 1
                && |questions[examId]| <= exams[examId].totalQuestions
    {
      if examId !in exams {
        return NotFound("Exam not found");
      }
      var exam := exams[examId];
      var count := |questions[examId]|;
      if count >= exam.totalQuestions {
        return BadRequest("Exam already has maximum " + NatToString(exam.totalQuestions) + " questions");
      }
      var checked := ValidateQuestion(text, a, b, c, d, correct);
      if !checked.Ok? {
        return BadRequest(checked.message);
      }
      var q := Question(nextQuestionId, text, a, b, c, d, checked.value, explanation, count + 1, marks);
      AppendKeepsCatalogs(exams, questions, examId, q, nextQuestionId);
      questions := questions[examId := questions[examId] + [q]];
      nextQuestionId := nextQuestionId + 1;
      r := Ok(AddedQuestion(q.id, q.order, exam.totalQuestions - (count + 1)));
    }

    /**
     * delete_question: refused when the exam has no question with that id;
     * otherwise the question is removed and the remaining ones, in their
     * order, are renumbered 1..N.
     */
    method DeleteQuestion(examId: int, questionId: int) returns (r: Outcome<()>)
      requires Valid()
      modifies this
      ensures Valid()
      ensures r.Ok? <==> examId in old(questions)
                         && exists i :: 0 <= i < |old(questions)[examId]| && old(questions)[examId][i].id == questionId
      ensures !r.Ok? ==> r == NotFound("Question not found") && unchanged(this)
      ensures r.Ok? ==>
                var qs := old(questions)[examId];
                && questions.Keys == old(questions).Keys
                && (forall e :: e in questions && e != examId ==> questions[e] == old(questions)[e])
                && Contiguous(questions[examId])
                && exists i :: 0 <= i < |qs| && qs[i].id == questionId
                               && SameButOrder(qs[..i] + qs[i + 1..], questions[examId])
      ensures exams == old(exams) && attempts == old(attempts) && answers == old(answers)
      ensures nextExamId == old(nextExamId) && nextQuestionId == old(nextQuestionId)
      ensures nextAttemptId == old(nextAttemptId)
    {
      if examId !in questions || !exists i :: 0 <= i < |questions[examId]| && questions[examId][i].id == questionId {
        return NotFound("Question not found");
      }
      var qs := questions[examId];
      var k :| 0 <= k < |qs| && qs[k].id == questionId;
      var remaining := qs[..k] + qs[k + 1..];
      var renumbered := Renumber(remaining);
      RemovalKeepsCatalog(qs, k, renumbered, exams[examId].totalQuestions, nextQuestionId);
      questions := questions[examId := renumbered];
      r := Ok(());
    }

    /**
     * start_exam for the calling student, with the effects StartSpec gives:
     * at most one new attempt row, numbered after the submitted ones.
     */
    method Start(examId: int, student: int, now: int) returns (r: Outcome<StartReply>)
      requires Valid()
      modifies this
      ensures Valid()
      ensures var s := StartSpec(old(exams), old(questions), old(attempts), old(answers), examId, student, now,
                                 old(nextAttemptId));
              r == s.reply && attempts == s.attempts
      ensures nextAttemptId == if r.Ok? && r.value.Started? then old(nextAttemptId) + 1 else old(nextAttemptId)
      ensures exams == old(exams) && questions == old(questions) && answers == old(answers)
      ensures nextExamId == old(nextExamId) && nextQuestionId == old(nextQuestionId)
    {
      if examId !in exams {
        return NotFound("Exam not found");
      }
      var exam := exams[examId];
      if !exam.isPublished || !exam.isActive {
        return Forbidden("This exam is not available");
      }
      if exists id :: id in attempts && IsOpenFor(attempts[id], examId, student) {
        var id :| id in attempts && IsOpenFor(attempts[id], examId, student);
        OpenIdsSingleton(attempts, examId, student, id);
        var a := attempts[id];
        if Expired(a.startedAt, now, exam.duration) {
          return BadRequest("Time has expired. Please submit the exam.");
        }
        return Ok(Resumed(id, a.startedAt, TimeRemaining(a.startedAt, now, exam.duration), SavedAnswers(answers, id)));
      }
      var previous := |SubmittedIds(attempts, examId, student)|;
      if previous > 0 && !exam.allowRetake {
        return Forbidden("Retakes are not allowed for this exam");
      }
      var count := |questions[examId]|;
      if count == 0 {
        return BadRequest("This exam has no questions yet. Please contact your teacher.");
      }
      var id := nextAttemptId;
      attempts := attempts[id := NewAttempt(examId, student, previous + 1, count, now)];
      nextAttemptId := nextAttemptId + 1;
      r := Ok(Started(id, now, exam.duration));
    }

    /**
     * save_answer: after the shared guards, a missing question id and a
     * selection outside A..D are refused; otherwise the (attempt, question)
     * row is upserted. Whether the question belongs to the attempt's exam is
     * not checked.
     */
    method SaveAnswer(attemptId: int, caller: int, questionId: int, raw: Option<string>) returns (r: Outcome<()>)
      requires Valid()
      modifies this
      ensures Valid()
      ensures var g := AttemptGuard(old(attempts), attemptId, caller);
              && (!g.Ok? ==> r == Refusal(g))
              && (g.Ok? && questionId == 0 ==> r == BadRequest("Question ID required"))
              && (g.Ok? && questionId != 0 && !ParseSelection(raw).Ok? ==> r == BadRequest("Invalid answer option"))
              && (r.Ok? <==> g.Ok? && questionId != 0 && ParseSelection(raw).Ok?)
      ensures !r.Ok? ==> unchanged(this)
      ensures r.Ok? ==> answers == Upsert(old(answers), (attemptId, questionId), ParseSelection(raw).value)
      ensures exams == old(exams) && questions == old(questions) && attempts == old(attempts)
      ensures nextExamId == old(nextExamId) && nextQuestionId == old(nextQuestionId)
      ensures nextAttemptId == old(nextAttemptId)
    {
      var g := AttemptGuard(attempts, attemptId, caller);
      if !g.Ok? {
        return Refusal(g);
      }
      if questionId == 0 {
        return BadRequest("Question ID required");
      }
      var selection := ParseSelection(raw);
      if !selection.Ok? {
        return BadRequest("Invalid answer option");
      }
      answers := Upsert(answers, (attemptId, questionId), selection.value);
      r := Ok(());
    }

    /**
     * submit_exam: after the shared guards, grades every question of the
     * exam against the stored answers (creating a null row for each
     * unanswered one), recomputes the possible total, and writes the score,
     * percentage, pass flag and the caller's auto_submit flag. The deadline is
     * not checked. Afterwards the attempt is submitted, so the shared guards
     * refuse any further submit or save.
     */
    method Submit(attemptId: int, caller: int, autoSubmit: bool, now: int) returns (r: Outcome<SubmitReply>)
      requires Valid()
      modifies this
      ensures Valid()
      ensures var g := AttemptGuard(old(attempts), attemptId, caller);
              && (!g.Ok? ==> r == Refusal(g))
              && (g.Ok? && g.value.examId !in old(exams) ==> r == ServerError("Exam data not found"))
              && (r.Ok? <==> g.Ok? && g.value.examId in old(exams))
      ensures !r.Ok? ==> unchanged(this)
      ensures r.Ok? ==>
                var a := old(attempts)[attemptId];
                var qs := old(questions)[a.examId];
                var score := EarnedMarks(old(answers), attemptId, qs);
                var total := SumMarks(qs);
                var b := Finalize(a, score, total, old(exams)[a.examId].passPercentage, now, autoSubmit);
                && answers == GradeAll(old(answers), attemptId, qs)
                && attempts == old(attempts)[attemptId := b]
                && r.value == SubmitReply(attemptId, score, total, b.percentage, b.isPassed,
                                          TimeDisplay(now - a.startedAt), autoSubmit)
                && AttemptGuard(attempts, attemptId, caller) == BadRequest("Exam already submitted")
      ensures exams == old(exams) && questions == old(questions)
      ensures nextExamId == old(nextExamId) && nextQuestionId == old(nextQuestionId)
      ensures nextAttemptId == old(nextAttemptId)
    {
      var g := AttemptGuard(attempts, attemptId, caller);
      if !g.Ok? {
        return Refusal(g);
      }
      var attempt := g.value;
      if attempt.examId !in exams {
        return ServerError("Exam data not found");
      }
      var exam := exams[attempt.examId];
      var timeTaken := now - attempt.startedAt;
      var qs := questions[attempt.examId];
      var totalMarks := SumMarks(qs);
      var rows, totalScore := GradeQuestions(answers, attemptId, qs);
      var finished := Finalize(attempt, totalScore, totalMarks, exam.passPercentage, now, autoSubmit);
      answers := rows;
      attempts := attempts[attemptId := finished];
      r := Ok(SubmitReply(attemptId, totalScore, totalMarks, finished.percentage, finished.isPassed,
                          TimeDisplay(timeTaken), autoSubmit));
    }
  }

  /**
   * The grading loop of submit_exam: each question's stored answer is marked
   * correct (earning the question's marks) or wrong, and a null row is
   * created for each unanswered question; the earned marks are summed.
   */
  method GradeQuestions(answers: map<AnswerKey, Answer>, attemptId: int, qs: seq<Question>)
    returns (rows: map<AnswerKey, Answer>, totalScore: int)
    ensures rows == GradeAll(answers, attemptId, qs)
    ensures totalScore == EarnedMarks(answers, attemptId, qs)
  {
    totalScore := 0;
    rows := answers;
    var i := 0;
    while i < |qs|
      invariant 0 <= i <= |qs|
      invariant rows == GradeAll(answers, attemptId, qs[..i])
      invariant totalScore == EarnedMarks(answers, attemptId, qs[..i])
    {
      var question := qs[i];
      var k := (attemptId, question.id);
      GradeAllKeepsSelection(answers, attemptId, qs[..i], k);
      assert qs[..i + 1][..i] == qs[..i];
      if k in rows && rows[k].selected == Some(question.correctAnswer) {
        rows := rows[k := rows[k].(isCorrect := Some(true), marksObtained := Some(question.marks))];
        totalScore := totalScore + question.marks;
      } else if k in rows {
        rows := rows[k := rows[k].(isCorrect := Some(false), marksObtained := Some(0))];
      } else {
        rows := rows[k := Answer(None, Some(false), Some(0))];
      }
      i := i + 1;
    }
    assert qs[..|qs|] == qs;
  }

  /** A question appended with the next id and order count+1 keeps the catalog well formed. */
  lemma AppendKeepsCatalog(qs: seq<Question>, q: Question, totalQuestions: int, nextQuestionId: int)
    requires CatalogValid(qs, totalQuestions, nextQuestionId)
    requires |qs| < totalQuestions
    requires q.id == nextQuestionId && q.order == |qs| + 1 && IsOptionLetter(q.correctAnswer)
    ensures CatalogValid(qs + [q], totalQuestions, nextQuestionId + 1)
  {
  }

  /** Appending a question to one exam keeps every exam's catalog well formed under the next id bound. */
  lemma AppendKeepsCatalogs(exams: map<int, Exam>, questions: map<int, seq<Question>>, examId: int,
                            q: Question, nextQuestionId: int)
    requires questions.Keys == exams.Keys
    requires forall e :: e in questions ==> CatalogValid(questions[e], exams[e].totalQuestions, nextQuestionId)
    requires examId in exams && |questions[examId]| < exams[examId].totalQuestions
    requires q.id == nextQuestionId && q.order == |questions[examId]| + 1 && IsOptionLetter(q.correctAnswer)
    ensures var added := questions[examId := questions[examId] + [q]];
            forall e :: e in added ==> CatalogValid(added[e], exams[e].totalQuestions, nextQuestionId + 1)
  {
    AppendKeepsCatalog(questions[examId], q, exams[examId].totalQuestions, nextQuestionId);
  }

  /** Removing one question and renumbering keeps the catalog well formed. */
  lemma RemovalKeepsCatalog(qs: seq<Question>, k: int, renumbered: seq<Question>, totalQuestions: int, nextQuestionId: int)
    requires CatalogValid(qs, totalQuestions, nextQuestionId)
    requires 0 <= k < |qs|
    requires Contiguous(renumbered) && SameButOrder(qs[..k] + qs[k + 1..], renumbered)
    ensures CatalogValid(renumbered, totalQuestions, nextQuestionId)
  {
  }
}
