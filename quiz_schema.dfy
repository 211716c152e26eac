/** Validation of quiz create/replace requests: length bounds on the raw
    text, strip-then-non-empty, 2 to 6 answers with exactly one correct,
    points 1 to 100 (default 1), and 1 to 100 questions per quiz. A request
    that fails any rule is refused as a whole. */
module QuizSchema {
  import opened Common

  const AnswerTextMax: nat := 500
  const QuestionTextMax: nat := 1000
  const TitleMax: nat := 200
  const MinAnswers: nat := 2
  const MaxAnswers: nat := 6
  const MinPoints: int := 1
  const MaxPoints: int := 100
  const DefaultPoints: int := 1
  const MinQuestions: nat := 1
  const MaxQuestions: nat := 100

  /** A request body as it arrives. `points` is None when the request does
      not give it. */
  datatype AnswerRequest = AnswerRequest(text: string, isCorrect: bool)
  datatype QuestionRequest = QuestionRequest(text: string, answers: seq<AnswerRequest>, points: Option<int>)
  datatype QuizRequest = QuizRequest(title: string, questions: seq<QuestionRequest>)

  /** The validated `AnswerCreate`, `QuestionCreate` and `QuizCreate`. */
  datatype AnswerCreate = AnswerCreate(text: string, isCorrect: bool)
  datatype QuestionCreate = QuestionCreate(text: string, answers: seq<AnswerCreate>, points: int)
  datatype QuizCreate = QuizCreate(title: string, questions: seq<QuestionCreate>)

  /** A text field: the length bound applies to the raw text, then the
      validator strips it and refuses what is left empty. */
  function CheckedText(raw: string, maxLen: nat): (r: Option<string>)
    ensures r.Some? <==> |raw| <= maxLen && !AllSpace(raw)
    ensures r.Some? ==> r.value == Strip(raw) && 1 <= |r.value| <= maxLen
  {
    if 1 <= |raw| <= maxLen && !AllSpace(raw) then Some(Strip(raw)) else None
  }

  function CountCorrect(answers: seq<AnswerCreate>): (n: nat)
    ensures n <= |answers|
  {
    if answers == [] then 0
    else (if answers[0].isCorrect then 1 else 0) + CountCorrect(answers[1..])
  }

  function ValidateAnswer(a: AnswerRequest): Option<AnswerCreate>
  {
    match CheckedText(a.text, AnswerTextMax)
    case None => None
    case Some(t) => Some(AnswerCreate(t, a.isCorrect))
  }

  /** Each answer of a list validated on its own; one bad answer refuses
      the list. */
  function ValidateAnswers(rs: seq<AnswerRequest>): (r: Option<seq<AnswerCreate>>)
    ensures r.Some? <==> forall i :: 0 <= i < |rs| ==> ValidateAnswer(rs[i]).Some?
    ensures r.Some? ==> (|r.value| == |rs|
      && forall i :: 0 <= i < |rs| ==> ValidateAnswer(rs[i]) == Some(r.value[i]))
  {
    MapAll(rs, ValidateAnswer)
  }

  function ValidateQuestion(q: QuestionRequest): Option<QuestionCreate>
  {
    var points := if q.points.Some? then q.points.value else DefaultPoints;
    match (CheckedText(q.text, QuestionTextMax), ValidateAnswers(q.answers))
    case (Some(text), Some(answers)) =>
      if MinAnswers <= |answers| <= MaxAnswers && CountCorrect(answers) == 1
         && MinPoints <= points <= MaxPoints
      then Some(QuestionCreate(text, answers, points))
      else None
    case _ => None
  }

  function ValidateQuestions(rs: seq<QuestionRequest>): (r: Option<seq<QuestionCreate>>)
    ensures r.Some? <==> forall i :: 0 <= i < |rs| ==> ValidateQuestion(rs[i]).Some?
    ensures r.Some? ==> (|r.value| == |rs|
      && forall i :: 0 <= i < |rs| ==> ValidateQuestion(rs[i]) == Some(r.value[i]))
  {
    MapAll(rs, ValidateQuestion)
  }

  /** Pydantic's validation of a `QuizCreate` body: None stands for the
      ValidationError it raises. */
  function ValidateQuiz(r: QuizRequest): Option<QuizCreate>
  {
    match (CheckedText(r.title, TitleMax), ValidateQuestions(r.questions))
    case (Some(title), Some(questions)) =>
      if MinQuestions <= |questions| <= MaxQuestions then Some(QuizCreate(title, questions)) else None
    case _ => None
  }

  /** A stored text: non-empty, within its bound, with nothing left to strip. */
  predicate CleanText(t: string, maxLen: nat)
  {
    1 <= |t| <= maxLen && Strip(t) == t
  }

  predicate WellFormedAnswer(a: AnswerCreate)
  {
    CleanText(a.text, AnswerTextMax)
  }

  predicate WellFormedQuestion(q: QuestionCreate)
  {
    && CleanText(q.text, QuestionTextMax)
    && MinAnswers <= |q.answers| <= MaxAnswers
    && (forall j :: 0 <= j < |q.answers| ==> WellFormedAnswer(q.answers[j]))
    && CountCorrect(q.answers) == 1
    && MinPoints <= q.points <= MaxPoints
  }

  /** What every accepted quiz satisfies. */
  predicate WellFormedQuiz(q: QuizCreate)
  {
    && CleanText(q.title, TitleMax)
    && MinQuestions <= |q.questions| <= MaxQuestions
    && forall i :: 0 <= i < |q.questions| ==> WellFormedQuestion(q.questions[i])
  }

  lemma CheckedTextClean(raw: string, maxLen: nat)
    requires CheckedText(raw, maxLen).Some?
    ensures CleanText(CheckedText(raw, maxLen).value, maxLen)
  {
    StripIdempotent(raw);
  }

  lemma ValidatedQuestionWellFormed(qr: QuestionRequest)
    requires ValidateQuestion(qr).Some?
    ensures WellFormedQuestion(ValidateQuestion(qr).value)
  {
    var q := ValidateQuestion(qr).value;
    CheckedTextClean(qr.text, QuestionTextMax);
    forall j | 0 <= j < |q.answers|
      ensures WellFormedAnswer(q.answers[j])
    {
      assert ValidateAnswer(qr.answers[j]) == Some(q.answers[j]);
      CheckedTextClean(qr.answers[j].text, AnswerTextMax);
    }
  }

  /** Whatever validation accepts is well formed. */
  lemma ValidatedIsWellFormed(r: QuizRequest)
    requires ValidateQuiz(r).Some?
    ensures WellFormedQuiz(ValidateQuiz(r).value)
  {
    var q := ValidateQuiz(r).value;
    CheckedTextClean(r.title, TitleMax);
    forall i | 0 <= i < |q.questions|
      ensures WellFormedQuestion(q.questions[i])
    {
      assert ValidateQuestion(r.questions[i]) == Some(q.questions[i]);
      ValidatedQuestionWellFormed(r.questions[i]);
    }
  }

  /** The request a validated quiz came from, up to whitespace and the
      default of `points`. */
  function AsRequest(q: QuizCreate): QuizRequest
  {
    QuizRequest(q.title, seq(|q.questions|, i requires 0 <= i < |q.questions| =>
      AsQuestionRequest(q.questions[i])))
  }

  lemma CleanTextAccepted(t: string, maxLen: nat)
    requires CleanText(t, maxLen)
    ensures CheckedText(t, maxLen) == Some(t)
  {
  }

  lemma WellFormedAnswerRoundTrip(a: AnswerCreate)
    requires WellFormedAnswer(a)
    ensures ValidateAnswer(AnswerRequest(a.text, a.isCorrect)) == Some(a)
  {
    CleanTextAccepted(a.text, AnswerTextMax);
  }

  function AsQuestionRequest(q: QuestionCreate): QuestionRequest
  {
    QuestionRequest(q.text, seq(|q.answers|, j requires 0 <= j < |q.answers| =>
      AnswerRequest(q.answers[j].text, q.answers[j].isCorrect)), Some(q.points))
  }

  lemma WellFormedQuestionRoundTrip(q: QuestionCreate)
    requires WellFormedQuestion(q)
    ensures ValidateQuestion(AsQuestionRequest(q)) == Some(q)
  {
    var qr := AsQuestionRequest(q);
    assert CheckedText(qr.text, QuestionTextMax) == Some(q.text) by {
      CleanTextAccepted(q.text, QuestionTextMax);
    }
    assert ValidateAnswers(qr.answers) == Some(q.answers) by {
      forall j | 0 <= j < |q.answers|
        ensures ValidateAnswer(qr.answers[j]) == Some(q.answers[j])
      {
        assert qr.answers[j] == AnswerRequest(q.answers[j].text, q.answers[j].isCorrect);
        WellFormedAnswerRoundTrip(q.answers[j]);
      }
      var va := ValidateAnswers(qr.answers);
      assert forall j :: 0 <= j < |q.answers| ==> va.value[j] == q.answers[j];
      assert va.value == q.answers;
    }
  }

  /** Validation accepts every well-formed quiz and returns it unchanged:
      together with `ValidatedIsWellFormed`, the well-formed quizzes are
      exactly the values validation can produce. */
  lemma WellFormedRoundTrip(q: QuizCreate)
    requires WellFormedQuiz(q)
    ensures ValidateQuiz(AsRequest(q)) == Some(q)
  {
    var r := AsRequest(q);
    assert CheckedText(r.title, TitleMax) == Some(q.title) by {
      CleanTextAccepted(q.title, TitleMax);
    }
    assert ValidateQuestions(r.questions) == Some(q.questions) by {
      forall i | 0 <= i < |q.questions|
        ensures ValidateQuestion(r.questions[i]) == Some(q.questions[i])
      {
        WellFormedQuestionRoundTrip(q.questions[i]);
      }
      var vq := ValidateQuestions(r.questions);
      assert forall i :: 0 <= i < |q.questions| ==> vq.value[i] == q.questions[i];
      assert vq.value == q.questions;
    }
  }

  /** Exactly one correct answer means there is a single index holding it. */
  lemma {:induction false} OneCorrect(answers: seq<AnswerCreate>) returns (k: nat)
    requires CountCorrect(answers) == 1
    ensures k < |answers| && answers[k].isCorrect
    ensures forall j :: 0 <= j < |answers| && j != k ==> !answers[j].isCorrect
  {
    var rest := answers[1..];
    assert forall j :: 1 <= j < |answers| ==> answers[j] == rest[j - 1];
    if answers[0].isCorrect {
      NoneCorrect(rest);
      k := 0;
    } else {
      var r := OneCorrect(rest);
      k := r + 1;
    }
  }

  lemma {:induction false} NoneCorrect(answers: seq<AnswerCreate>)
    requires CountCorrect(answers) == 0
    ensures forall j :: 0 <= j < |answers| ==> !answers[j].isCorrect
  {
    if answers != [] {
      NoneCorrect(answers[1..]);
      assert forall j :: 1 <= j < |answers| ==> answers[j] == answers[1..][j - 1];
    }
  }

  /** A question with no correct answer, or with two, is refused whatever
      its text and points. */
  lemma CorrectCountRefused(text: string, answers: seq<AnswerRequest>, points: Option<int>)
    requires ValidateAnswers(answers).Some?
    requires CountCorrect(ValidateAnswers(answers).value) != 1
    ensures ValidateQuestion(QuestionRequest(text, answers, points)) == None
  {
  }
}
