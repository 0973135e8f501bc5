/**
 * The value-level rules of the online-exam routes: the time limit, the score
 * percentage and pass test, the "m s" time display, the option-letter
 * normalisation, the question-count bound and the question numbering.
 */
module ExamRules {
  import opened ExamTypes

  /** The largest number of questions an exam may declare. */
  const MaxQuestions: int := 40

  /** create_exam accepts a declared question count only in 1..40. */
  predicate QuestionCountAllowed(n: int) {
    1 <= n <= MaxQuestions
  }

  /** The time limit of an exam, in seconds. */
  function TimeLimit(duration: int): int {
    duration * 60
  }

  /**
   * An attempt started at `startedAt` has run out of time at `now`: the
   * elapsed seconds reach the limit (the boundary itself counts as expired).
   * Resuming in start_exam and the expiry sweep use this same rule.
   */
  predicate Expired(startedAt: int, now: int, duration: int) {
    now - startedAt >= TimeLimit(duration)
  }

  /** The seconds left to an attempt that has not expired; `now + r` is its deadline. */
  function TimeRemaining(startedAt: int, now: int, duration: int): (r: int)
    requires !Expired(startedAt, now, duration)
    ensures 0 < r
    ensures now + r == startedAt + TimeLimit(duration)
  {
    TimeLimit(duration) - (now - startedAt)
  }

  /** The percentage of `total` that `score` is; 0 when there are no marks to be had. */
  function Percentage(score: int, total: int): (p: real)
    ensures total > 0 ==> p * (total as real) == (score as real) * 100.0
    ensures total <= 0 ==> p == 0.0
  {
    if total > 0 then (score as real) / (total as real) * 100.0 else 0.0
  }

  /** The pass test: a percentage meeting the threshold exactly passes. */
  predicate IsPassed(percentage: real, passPercentage: real) {
    percentage >= passPercentage
  }

  /** A score between 0 and the total gives a percentage between 0 and 100. */
  lemma PercentageInRange(score: int, total: int)
    requires 0 <= score <= total
    ensures 0.0 <= Percentage(score, total) <= 100.0
  {
  }

  /** With marks to be had, passing is the cross-multiplied test score*100 >= pass*total. */
  lemma PassedIffCrossMultiplied(score: int, total: int, passPercentage: real)
    requires total > 0
    ensures IsPassed(Percentage(score, total), passPercentage)
        <==> (score as real) * 100.0 >= passPercentage * (total as real)
  {
  }

  /**
   * The "{m}m {s}s" display of a duration in seconds, as (m, s). Python's
   * floor division and modulo by 60 agree with Dafny's Euclidean ones because
   * the divisor is positive.
   */
  function TimeDisplay(seconds: int): (d: (int, int))
    ensures d.0 * 60 + d.1 == seconds
    ensures 0 <= d.1 < 60
  {
    (seconds / 60, seconds % 60)
  }

  /** Any (m, s) with m*60 + s == t and 0 <= s < 60 is the display of t. */
  lemma TimeDisplayUnique(seconds: int, m: int, s: int)
    requires m * 60 + s == seconds && 0 <= s < 60
    ensures TimeDisplay(seconds) == (m, s)
  {
  }

  /** The four option letters, as the strings the tables store. */
  predicate IsOptionLetter(s: string) {
    s == "A" || s == "B" || s == "C" || s == "D"
  }

  /** Upper-casing of one character (ASCII letters only). */
  function UpperChar(c: char): (u: char)
    ensures 'a' <= c <= 'z' ==> 'A' <= u <= 'Z' && u as int - 'A' as int == c as int - 'a' as int
    ensures !('a' <= c <= 'z') ==> u == c
  {
    if 'a' <= c <= 'z' then (c as int - 32) as char else c
  }

  /** Upper-casing of a string, character by character. */
  function Upper(s: string): (u: string)
    ensures |u| == |s|
    ensures forall i :: 0 <= i < |s| ==> u[i] == UpperChar(s[i])
  {
    if s == [] then [] else [UpperChar(s[0])] + Upper(s[1..])
  }

  /** Upper-casing yields an option letter exactly for the eight one-letter spellings of A..D. */
  lemma {:induction false} UpperIsOptionLetter(s: string)
    ensures IsOptionLetter(Upper(s)) <==> s in {"a", "b", "c", "d", "A", "B", "C", "D"}
    ensures Upper(s) == "A" <==> s in {"a", "A"}
    ensures Upper(s) == "B" <==> s in {"b", "B"}
    ensures Upper(s) == "C" <==> s in {"c", "C"}
    ensures Upper(s) == "D" <==> s in {"d", "D"}
  {
    if |s| == 1 {
      var c := s[0];
      assert s == [c];
      var u := UpperChar(c);
      assert Upper(s) == [u] + Upper([]);
      assert IsOptionLetter([u]) <==> u == 'A' || u == 'B' || u == 'C' || u == 'D';
      assert s in {"a", "b", "c", "d", "A", "B", "C", "D"}
          <==> c in {'a', 'b', 'c', 'd', 'A', 'B', 'C', 'D'};
    }
  }

  /**
   * The selected_answer of save_answer: a missing or empty value clears the
   * answer (None), otherwise the upper-cased text must be an option letter.
   */
  function ParseSelection(raw: Option<string>): (r: Outcome<Option<string>>)
    ensures r.Ok? && r.value.Some? ==> IsOptionLetter(r.value.value)
    ensures (r.Ok? && r.value.None?) <==> (raw == None || raw == Some(""))
    ensures !r.Ok? ==> r == BadRequest("Invalid answer option")
  {
    if raw.None? || raw.value == "" then Ok(None)
    else
      var u := Upper(raw.value);
      if IsOptionLetter(u) then Ok(Some(u)) else BadRequest("Invalid answer option")
  }

  /** save_answer accepts a given text exactly when it is empty or a one-letter spelling of A..D. */
  lemma ParseSelectionAccepts(text: string)
    ensures ParseSelection(Some(text)).Ok?
        <==> text == "" || text in {"a", "b", "c", "d", "A", "B", "C", "D"}
    ensures ParseSelection(Some(text)).Ok? && text != "" ==> ParseSelection(Some(text)).value == Some(Upper(text))
  {
    UpperIsOptionLetter(text);
  }

  /**
   * The field checks of add_question, in the route's order: each required
   * text must be non-empty, then the upper-cased correct answer must be an
   * option letter. On success the stored correct answer is returned.
   */
  function ValidateQuestion(text: string, a: string, b: string, c: string, d: string, correct: string)
    : (r: Outcome<string>)
    ensures r.Ok? ==> IsOptionLetter(r.value) && r.value == Upper(correct)
    ensures !r.Ok? ==> r.BadRequest?
    ensures text == [] || a == [] || b == [] || c == [] || d == [] || correct == [] ==> r.BadRequest?
    ensures text == [] ==> r == BadRequest("Missing or empty required field: question_text")
    ensures text != [] && a == [] ==> r == BadRequest("Missing or empty required field: option_a")
    ensures text != [] && a != [] && b == [] ==> r == BadRequest("Missing or empty required field: option_b")
    ensures text != [] && a != [] && b != [] && c == [] ==> r == BadRequest("Missing or empty required field: option_c")
    ensures text != [] && a != [] && b != [] && c != [] && d == []
            ==> r == BadRequest("Missing or empty required field: option_d")
    ensures text != [] && a != [] && b != [] && c != [] && d != [] && correct == []
            ==> r == BadRequest("Missing or empty required field: correct_answer")
    ensures text != [] && a != [] && b != [] && c != [] && d != [] && correct != [] && !IsOptionLetter(Upper(correct))
            ==> r == BadRequest("Correct answer must be A, B, C, or D")
  {
    if text == [] then BadRequest("Missing or empty required field: question_text")
    else if a == [] then BadRequest("Missing or empty required field: option_a")
    else if b == [] then BadRequest("Missing or empty required field: option_b")
    else if c == [] then BadRequest("Missing or empty required field: option_c")
    else if d == [] then BadRequest("Missing or empty required field: option_d")
    else if correct == [] then BadRequest("Missing or empty required field: correct_answer")
    else if !IsOptionLetter(Upper(correct)) then BadRequest("Correct answer must be A, B, C, or D")
    else Ok(Upper(correct))
  }

  /** With the texts present, a question is accepted exactly when its correct answer spells A..D. */
  lemma ValidateQuestionAccepts(text: string, a: string, b: string, c: string, d: string, correct: string)
    requires text != [] && a != [] && b != [] && c != [] && d != []
    ensures ValidateQuestion(text, a, b, c, d, correct).Ok?
        <==> correct in {"a", "b", "c", "d", "A", "B", "C", "D"}
  {
    UpperIsOptionLetter(correct);
  }

  /** The questions of an exam carry the orders 1..N in sequence. */
  predicate Contiguous(qs: seq<Question>) {
    forall i :: 0 <= i < |qs| ==> qs[i].order == i + 1
  }

  /** `b` is `a` with possibly different orders, every other field and the sequence kept. */
  predicate SameButOrder(a: seq<Question>, b: seq<Question>) {
    |a| == |b| && forall i :: 0 <= i < |a| ==> b[i] == a[i].(order := b[i].order)
  }

  /** No two questions of one exam share an id. */
  predicate DistinctIds(qs: seq<Question>) {
    forall i, j :: 0 <= i < j < |qs| ==> qs[i].id != qs[j].id
  }

  /**
   * The renumbering loop of delete_question: the remaining questions, in their
   * order, get the orders 1..N.
   */
  method Renumber(qs: seq<Question>) returns (r: seq<Question>)
    ensures Contiguous(r)
    ensures SameButOrder(qs, r)
  {
    r := qs;
    var idx := 0;
    while idx < |r|
      invariant 0 <= idx <= |r| == |qs|
      invariant forall i :: 0 <= i < idx ==> r[i] == qs[i].(order := i + 1)
      invariant forall i :: idx <= i < |r| ==> r[i] == qs[i]
    {
      r := r[idx := r[idx].(order := idx + 1)];
      idx := idx + 1;
    }
  }

  /** Decimal digits of a natural number, for the messages that quote a count. */
  function NatToString(n: nat): string
    decreases n
  {
    var digit := ["0123456789"[n % 10]];
    if n < 10 then digit else NatToString(n / 10) + digit
  }
}
