# Online exam attempts: a Dafny model

This project models the timed multiple-choice exam subsystem of a school
management backend. The routes in `routes/online_exams.py` cover the question
catalog rules and the attempt lifecycle. `clean_expired_attempts.py` is the
expiry sweep that force-submits attempts whose time is up.

The database is an in-memory store, the class `OnlineExams.ExamStore`. It
holds the exams, the questions of each exam in `question_order`, the attempts,
and the answer rows keyed by (attempt id, question id). It also holds the next
id the database would assign in each table. Time is an integer number of
seconds passed in as `now`. The caller's id and role are explicit parameters.

Files:

- `exam_types.dfy`: the table rows as datatypes, and `Outcome`. An `Outcome` is
  a success value or a refusal with its status class (404, 403, 400, 500) and
  message.
- `exam_rules.dfy`: the value rules. These are the 1..40 question-count bound,
  the time limit and inclusive expiry test, the time remaining, the percentage
  and pass test, the "m s" time display, option-letter normalisation, the
  field checks of add_question and the renumbering loop of delete_question.
- `grading.dfy`: the grading pass of submit_exam, specified as functions over
  the answer rows (`SumMarks`, `EarnedMarks`, `GradeAll`, `Finalize`), with
  lemmas about them.
- `online_exams.dfy`: the store and its operations `CreateExam`, `AddQuestion`,
  `DeleteQuestion`, `Start`, `SaveAnswer` and `Submit`. It also has the guards
  of get_exam_results (`ResultsAccess`), the grading loop (`GradeQuestions`),
  and `StartSpec`, the functional specification of start_exam.
- `clean_expired.dfy`: the sweep. `CollectExpired` is the scan loop and
  `CleanExpiredAttempts` is the update loop over the store. `SweepAll` is the
  table the two loops produce, with lemmas about it.

The store invariant `ExamStore.Valid` holds before and after every
operation. It requires:

- every exam declares 1..40 questions and has at most that many;
- each exam's questions are numbered 1..N in order, with distinct ids and a
  correct answer in A..D;
- no (exam, student) pair has two unsubmitted attempts.

Two behaviours of the code are kept exactly as written:

- The sweep writes `scored_marks`, `total_marks` and `percentage` and never
  sets `score` or `auto_submitted` (clean_expired_attempts.py:42-50).
  `ForceSubmitted` writes exactly those columns, and `Attempt` keeps `score`
  and `scoredMarks` as two separate fields.
- A submit of an attempt that is already submitted, including one the sweep
  closed, is refused with 400 "Exam already submitted"
  (routes/online_exams.py:597-599). `Submit` does the same.

## Model

| member | source | states |
|---|---|---|
| ExamRules.TimeRemaining | routes/online_exams.py:418-447 | for an attempt that has not expired, the remaining time is positive and `now + remaining` is the deadline `started_at + duration*60` |
| ExamRules.Percentage | routes/online_exams.py:662 | with marks to be had, `percentage * total == score * 100`; with a total of 0 the percentage is 0 |
| ExamRules.PercentageInRange | routes/online_exams.py:662 | a score between 0 and the total gives a percentage between 0 and 100 |
| ExamRules.PassedIffCrossMultiplied | routes/online_exams.py:662-663 | with marks to be had, the inclusive pass test `percentage >= pass` holds exactly when `score*100 >= pass*total` |
| ExamRules.TimeDisplay | routes/online_exams.py:669-671 | the "{m}m {s}s" display satisfies `m*60 + s == time_taken` and `0 <= s < 60` |
| ExamRules.TimeDisplayUnique | routes/online_exams.py:669-671 | any (m, s) with `m*60 + s == t` and `0 <= s < 60` is the display of t, so the display is determined by those two facts |
| ExamRules.UpperChar | routes/online_exams.py:284 | a lower-case ASCII letter becomes the capital at the same position in the alphabet; every other character is kept |
| ExamRules.Upper | routes/online_exams.py:284 | upper-casing keeps the length of the text and maps each character by itself, a..z to A..Z and every other character to itself |
| ExamRules.UpperIsOptionLetter | routes/online_exams.py:284-285 | the upper-cased text is one of A..D exactly when the text is one of the eight one-letter spellings a..d, A..D; and it is "A" exactly for "a" and "A", and likewise for B, C and D, so a letter is stored as its own capital whichever case was given |
| ExamRules.ParseSelection | routes/online_exams.py:543-549 | a missing or empty selection clears the answer (None) and nothing else does; an accepted letter is one of A..D; anything else is refused with 400 "Invalid answer option" |
| ExamRules.ParseSelectionAccepts | routes/online_exams.py:543-549 | a given text is accepted exactly when it is empty or a one-letter spelling of A..D, and a non-empty accepted text is stored upper-cased |
| ExamRules.ValidateQuestion | routes/online_exams.py:278-286 | an empty question text, option or correct answer is refused with 400 "Missing or empty required field: <field>", checked in the route's field order; then a correct answer outside A..D is refused with 400 "Correct answer must be A, B, C, or D"; an accepted question's stored correct answer is the upper-cased input and one of A..D |
| ExamRules.ValidateQuestionAccepts | routes/online_exams.py:278-286 | with the texts present, a question is accepted exactly when its correct answer is a one-letter spelling of A..D |
| ExamRules.Renumber | routes/online_exams.py:372-375 | the remaining questions end numbered 1..N, in the same sequence, with every field other than the order unchanged |
| Grading.GradeAllKeepsSelection | routes/online_exams.py:625-650 | grading never changes the option stored for any (attempt, question) key |
| Grading.GradeAllRows | routes/online_exams.py:625-650 | after grading, each question of the exam has its row for the attempt; the row holds the stored selection (None if there was none), whether it equals the correct answer, and the question's marks or 0 accordingly |
| Grading.GradeAllFrame | routes/online_exams.py:625-650 | grading adds, removes and changes no row other than the attempt's rows for the graded questions |
| Grading.EarnedWithinTotal | routes/online_exams.py:622-636 | with non-negative marks, `0 <= score <= sum of all question marks` |
| Grading.PercentageFacts | routes/online_exams.py:662-663 | for `0 <= score <= total` the percentage is in [0, 100]; the attempt passes exactly when `score*100 >= pass*total`, or, with a total of 0, exactly when the threshold is at most 0 |
| Grading.SubmittedSummary | routes/online_exams.py:656-664 | the row submit writes is submitted, has `0 <= score <= total_marks == sum of marks`, a percentage in [0, 100], and passes exactly under the cross-multiplied test |
| OnlineExams.SavedAnswers | routes/online_exams.py:440-442 | the saved answers of a resumed attempt have exactly the question ids of the attempt's rows, each with its stored selection |
| OnlineExams.StartSpec | routes/online_exams.py:399-483 | start_exam refuses in this order: 404 missing exam; 403 unpublished or inactive; 400 "Time has expired" for the open attempt at or past its limit; 403 retake not allowed; 400 no questions. It otherwise resumes the open attempt, replying with its id, its start time, the positive time remaining and its saved answers; or it creates one attempt row started at `now`, numbered (submitted attempts + 1), with provisional total_marks = question count and the other columns at their defaults, and replies with the new id, `now` and the exam's duration. Refusals and resumption change no attempt, and afterwards the student has exactly one open attempt at the exam |
| OnlineExams.NewAttempt | routes/online_exams.py:475-480 | the new attempt row is open for the (exam, student) pair, with the given attempt number and provisional total_marks, and not yet timed or auto-submitted; the route does not set started_at or is_submitted, so the row takes the assumed column defaults: started at `now` and not submitted |
| OnlineExams.OpenIdsSingleton | routes/online_exams.py:412-418 | when at most one attempt per (exam, student) is open, the open attempt found is the pair's only one |
| OnlineExams.AddOpenAttempt | routes/online_exams.py:474-483 | adding an open attempt for a pair that had none keeps "at most one open attempt" and makes it the pair's only one |
| OnlineExams.StartTwiceCreatesOnce | routes/online_exams.py:411-483 | a second start_exam after one that succeeded creates no attempt: it resumes the same attempt or refuses |
| OnlineExams.AttemptGuard | routes/online_exams.py:530-539 | save_answer and submit_exam pass their shared guards exactly when the attempt exists, belongs to the caller and is unsubmitted; a missing attempt is refused with 404 "Attempt not found", another student's with 403 "Unauthorized", and an own submitted attempt with 400 "Exam already submitted" |
| OnlineExams.Upsert | routes/online_exams.py:551-568 | the (attempt, question) key ends with exactly one row holding the new selection; an existing row keeps its grading columns; every other row is unchanged |
| OnlineExams.ResultsAccess | routes/online_exams.py:698-746 | results are served exactly when the attempt exists, a student caller owns it (staff may see any) and it is submitted; the refusals are 404 "Attempt not found", 403 "Unauthorized" and 400 "Exam not yet submitted", in that order; a formatted time is shown exactly when a non-zero time was recorded, and it is the (m, s) display with `m*60 + s == time_taken` and `0 <= s < 60` |
| OnlineExams.ExamStore.CreateExam | routes/online_exams.py:103-125 | an exam is created exactly when 1 <= total_questions <= 40, unpublished and without questions; otherwise 400 and nothing changes |
| OnlineExams.ExamStore.AddQuestion | routes/online_exams.py:266-303 | refuses a missing exam (404), a full exam (400 "Exam already has maximum N questions") and invalid fields (the 400 ValidateQuestion gives), changing nothing; otherwise appends the question with the next id, order count+1 and the upper-cased answer, and the count never exceeds total_questions |
| OnlineExams.ExamStore.DeleteQuestion | routes/online_exams.py:366-377 | refuses (404, no change) unless the exam has a question with that id; otherwise removes it and the rest keep their relative order, renumbered 1..N, and other exams are untouched |
| OnlineExams.ExamStore.Start | routes/online_exams.py:399-483 | the reply and the new attempts table are those of StartSpec; the attempt-id counter advances only when an attempt is created; the other tables are unchanged |
| OnlineExams.ExamStore.SaveAnswer | routes/online_exams.py:529-570 | refuses (no change) when the guards fail, the question id is missing (0) or the letter is invalid; otherwise upserts the row for (attempt, question) without checking that the question belongs to the exam |
| OnlineExams.ExamStore.Submit | routes/online_exams.py:585-666 | after the guards, and with no deadline check: the answer rows become GradeAll of the exam's questions; the attempt becomes Finalize(score = earned marks, total = sum of marks, auto_submit copied from the request); the reply carries these values and the time display; afterwards the guards refuse the attempt as already submitted |
| OnlineExams.GradeQuestions | routes/online_exams.py:622-650 | the grading loop leaves exactly the rows GradeAll describes and sums exactly the earned marks |
| OnlineExams.AppendKeepsCatalog | routes/online_exams.py:271-298 | a question appended with the next id, order count+1 and an A..D answer to a non-full exam keeps its catalog well formed |
| OnlineExams.RemovalKeepsCatalog | routes/online_exams.py:366-375 | removing one question and renumbering keeps the catalog well formed (bounded, numbered 1..N, distinct ids) |
| CleanExpired.ForceSubmitted | clean_expired_attempts.py:41-50 | the forced row is submitted at `now` with scored_marks, total_marks and percentage 0; putting those five columns back gives the original row, so no other column (not score, not auto_submitted) is written |
| CleanExpired.SweepEffect | clean_expired_attempts.py:18-50 | an attempt changes only if it is selected; it is selected exactly when it was unsubmitted, has an exam and becomes submitted; an already submitted attempt is left unchanged |
| CleanExpired.SweepLeavesNoneExpired | clean_expired_attempts.py:18-35 | after a sweep at `now`, a sweep at the same `now` selects nothing |
| CleanExpired.SweepIdempotent | clean_expired_attempts.py:18-50 | a second sweep at the same `now` changes nothing, and at any later time the rows the first sweep finalized stay as it left them |
| CleanExpired.SweepKeepsAtMostOneOpen | clean_expired_attempts.py:41-50 | the sweep keeps "at most one open attempt per (exam, student)" |
| CleanExpired.SweepAgreesWithStart | clean_expired_attempts.py:28-35 | for a student's open attempt at an available exam, start_exam answers "Time has expired" exactly when the sweep at the same `now` selects that attempt (both use `elapsed >= duration*60`) |
| CleanExpired.CollectExpired | clean_expired_attempts.py:25-35 | the scan collects exactly the unsubmitted attempts with an exam whose elapsed time reaches `duration*60`, each once |
| CleanExpired.CleanExpiredAttempts | clean_expired_attempts.py:12-56 | the attempts table becomes SweepAll at one `now`; `cleaned` stands for the number the job prints (the function itself returns nothing), and it is the number of expired attempts; with none, the table is unchanged; the other tables are untouched and the store invariant is kept |

## Left out

- Flask routing, the login and role decorators, `get_current_user`, JSON envelopes and logging. The caller's id and role are parameters.
- Listing, detail, update and deletion of exams, and update_question (routes/online_exams.py:23-86, 139-254, 318-358). Publishing an exam therefore happens only in the states `Start` is given.
- The required-field checks of create_exam and the `int()`/`float()` parsing of request values and their defaults (pass percentage 40, retake and active true, marks 1). `CreateExam` and `AddQuestion` take the parsed values as parameters.
- Cascade deletion: deleting a question keeps its answer rows, because the ORM cascade configuration is not part of this model.
- The ORM model definitions are not part of this model. The columns start_exam and save_answer leave unset take assumed defaults. For a new attempt, `started_at` is the request's `now` and `is_submitted` is false; the expiry test and the open-attempt lookup of start_exam read these two columns. The other defaults are score 0, scored_marks 0, percentage 0, not passed and not auto-submitted. A new answer row has no grading.
- Exceptions with rollback and the generic 500 reply. The only 500 modelled is "Exam data not found" in submit_exam.
- Wall-clock reads, ISO parsing and the truncation of `total_seconds`: time is whole seconds. submit_exam reads the clock twice (routes/online_exams.py:616, 658); the model uses one `now` for both reads.
- The question lists and exam summaries in start_exam's replies, the empty `saved_answers` of its reply for a new attempt, and the per-question breakdown of get_exam_results (routes/online_exams.py:709-735). Only the guards of get_exam_results are modelled. The replies' `started_at` is the stored integer time, not its ISO text.
- Grading.SubmittedSummary, Grading.PercentageFacts: the [0, 100] percentage bound is proved only for non-negative marks, which is their requirement. add_question never checks the sign of `marks` (routes/online_exams.py:299), so the code allows a negative mark. Questions worth 2 and -1, with only the first answered correctly, give 2 of 1 marks: a percentage of 200.
- The `answered_at` timestamp of save_answer (routes/online_exams.py:560).
- Upper-casing covers ASCII letters only. A non-text `selected_answer` or `correct_answer` is not modelled.
- The order in which the database returns rows: submit_exam's unordered question query is graded in question order, and the sweep scans a set of rows.
- Concurrency and the race between submit and the sweep. SQLite connection plumbing, printing, and the single commit of the sweep.
- OnlineExams.ExamStore.Submit: the reply's percentage is not rounded to two decimals (routes/online_exams.py:679). Display rounding is not modelled.
- ExamRules.Percentage, ExamRules.PassedIffCrossMultiplied, OnlineExams.ExamStore.Submit: the percentage and the pass test use exact real arithmetic, where the code uses binary floating point (routes/online_exams.py:662-663). The two can differ at the inclusive pass boundary. For example, 29 of 50 marks gives 57.99999999999999 in floating point, so a pass percentage of 58 fails in the code but passes in the model.
- test_delete_monthly_exam.py, check_student_batches.py and config.py are not part of this model. They are a client script, a diagnostic script and configuration.
