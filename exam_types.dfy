/**
 * The rows of the online-exam tables (exams, questions, attempts, student
 * answers) as values, and the outcome of a request: a value, or one of the
 * HTTP-style refusals the routes return.
 */
module ExamTypes {

  datatype Option<+T> = None | Some(value: T)

  /** The reply of a route: success, or an error with its status class and message. */
  datatype Outcome<+T> =
    | Ok(value: T)
    | NotFound(message: string)     // 404
    | Forbidden(message: string)    // 403
    | BadRequest(message: string)   // 400
    | ServerError(message: string)  // 500

  datatype Role = Student | Teacher | SuperUser

  /** An online exam; `duration` is in minutes, `passPercentage` is a percentage. */
  datatype Exam = Exam(
    duration: int,
    totalQuestions: int,
    passPercentage: real,
    allowRetake: bool,
    isActive: bool,
    isPublished: bool)

  /** A multiple-choice question; `order` is its 1-based position in its exam. */
  datatype Question = Question(
    id: int,
    text: string,
    optionA: string,
    optionB: string,
    optionC: string,
    optionD: string,
    correctAnswer: string,
    explanation: string,
    order: int,
    marks: int)

  /**
   * One student's attempt at one exam. Times are integer seconds.
   * `score` is the column the interactive submit writes; `scoredMarks` is the
   * column the expiry sweep writes.
   */
  datatype Attempt = Attempt(
    examId: int,
    studentId: int,
    attemptNumber: int,
    startedAt: int,
    isSubmitted: bool,
    submittedAt: Option<int>,
    timeTaken: Option<int>,
    score: int,
    scoredMarks: int,
    totalMarks: int,
    percentage: real,
    isPassed: bool,
    autoSubmitted: bool)

  /** A stored answer row; the grading columns stay None until grading writes them. */
  datatype Answer = Answer(
    selected: Option<string>,
    isCorrect: Option<bool>,
    marksObtained: Option<int>)

  /** Answer rows are keyed by (attempt id, question id). */
  type AnswerKey = (int, int)
}
