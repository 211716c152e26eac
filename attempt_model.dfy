/** The `quiz_attempts` and `attempt_answers` rows: a frozen snapshot of a
    quiz taken at start, graded once at submission. */
module AttemptRecords {
  import opened Common

  /** The `status` column; its check constraint admits exactly these two. */
  datatype Status = InProgress | Submitted

  /** One `attempt_answers` row. The question's text, points and correct
      answer text are copies taken at start; `questionId` becomes None when
      the source question is deleted. The selection and outcome columns
      stay None until submission. */
  datatype AttemptAnswer = AttemptAnswer(
    id: Id,
    questionId: Option<Id>,
    questionOrder: int,
    questionText: string,
    questionPoints: int,
    selectedAnswerId: Option<Id>,
    selectedAnswerText: Option<string>,
    correctAnswerText: string,
    isCorrect: Option<bool>,
    pointsEarned: Option<int>)

  /** One `quiz_attempts` row with its answer rows, held in `question_order`
      order. `quizId` becomes None when the quiz is deleted; the attempt
      itself stays. */
  datatype Attempt = Attempt(
    id: Id,
    userId: Id,
    quizId: Option<Id>,
    quizTitle: string,
    totalPointsPossible: int,
    totalScore: Option<int>,
    startedAt: int,
    submittedAt: Option<int>,
    status: Status,
    answers: seq<AttemptAnswer>)

  /** The check constraints of `attempt_answers`. */
  predicate AnswerRowOk(a: AttemptAnswer)
  {
    && a.questionOrder >= 1
    && a.questionPoints >= 1
    && (a.pointsEarned.None? || a.pointsEarned.value >= 0)
  }

  /** The check constraints of `quiz_attempts` (the status one is the
      datatype), and those of each answer row. */
  predicate AttemptRowOk(t: Attempt)
  {
    && t.totalPointsPossible > 0
    && (t.totalScore.None? || t.totalScore.value >= 0)
    && forall i :: 0 <= i < |t.answers| ==> AnswerRowOk(t.answers[i])
  }

  function SumPoints(rs: seq<AttemptAnswer>): int
  {
    if rs == [] then 0 else rs[0].questionPoints + SumPoints(rs[1..])
  }

  /** Points earned over the rows, a null counting as 0. */
  function SumEarned(rs: seq<AttemptAnswer>): int
  {
    if rs == [] then 0
    else (if rs[0].pointsEarned.Some? then rs[0].pointsEarned.value else 0) + SumEarned(rs[1..])
  }

  /** A snapshot row as `start_quiz` leaves it: nothing chosen yet. */
  predicate Ungraded(a: AttemptAnswer)
  {
    a.selectedAnswerId.None? && a.selectedAnswerText.None? && a.isCorrect.None? && a.pointsEarned.None?
  }

  /** A row as `submit_quiz` leaves it: the full points when correct,
      otherwise none; an unanswered row is never correct. */
  predicate Graded(a: AttemptAnswer)
  {
    && a.isCorrect.Some?
    && a.pointsEarned == Some(if a.isCorrect.value then a.questionPoints else 0)
    && (a.selectedAnswerId.None? ==> !a.isCorrect.value && a.selectedAnswerText.None?)
    && (a.selectedAnswerId.Some? ==> a.selectedAnswerText.Some?)
  }

  /** What every stored attempt satisfies: the possible total is the sum of
      the frozen question points, rows are numbered 1..n, and the status
      decides whether the rows are graded and the score and submission
      time are set; a submitted score is the sum of the points earned. */
  predicate Consistent(t: Attempt)
  {
    && t.totalPointsPossible == SumPoints(t.answers)
    && t.answers != []
    && (forall i :: 0 <= i < |t.answers| ==>
          t.answers[i].questionOrder == i + 1 && t.answers[i].questionPoints >= 1)
    && (t.status == InProgress ==>
          && t.totalScore.None? && t.submittedAt.None?
          && forall i :: 0 <= i < |t.answers| ==> Ungraded(t.answers[i]))
    && (t.status == Submitted ==>
          && t.totalScore == Some(SumEarned(t.answers)) && t.submittedAt.Some?
          && forall i :: 0 <= i < |t.answers| ==> Graded(t.answers[i]))
  }

  lemma {:induction false} SumPointsPositive(rs: seq<AttemptAnswer>)
    requires rs != []
    requires forall i :: 0 <= i < |rs| ==> rs[i].questionPoints >= 1
    ensures SumPoints(rs) >= |rs|
  {
    if |rs| > 1 {
      SumPointsPositive(rs[1..]);
    }
  }

  /** Graded rows earn between nothing and every point on offer. */
  lemma {:induction false} EarnedBounds(rs: seq<AttemptAnswer>)
    requires forall i :: 0 <= i < |rs| ==> Graded(rs[i]) && rs[i].questionPoints >= 1
    ensures 0 <= SumEarned(rs) <= SumPoints(rs)
  {
    if rs != [] {
      EarnedBounds(rs[1..]);
    }
  }

  /** Every consistent attempt satisfies the table's check constraints, and
      a submitted score lies between 0 and the possible total. */
  lemma ConsistentRowOk(t: Attempt)
    requires Consistent(t)
    ensures AttemptRowOk(t)
    ensures t.totalScore.Some? ==> 0 <= t.totalScore.value <= t.totalPointsPossible
  {
    SumPointsPositive(t.answers);
    if t.status == Submitted {
      EarnedBounds(t.answers);
    }
  }

  /** `ON DELETE SET NULL` on `quiz_attempts.quiz_id`: deleting a quiz
      keeps its attempts, detached from it. */
  function DetachQuiz(ts: seq<Attempt>, quizId: Id): (r: seq<Attempt>)
    ensures |r| == |ts|
    ensures forall i :: 0 <= i < |ts| ==> r[i].quizId != Some(quizId)
    ensures forall i :: 0 <= i < |ts| ==> r[i] == ts[i] || (ts[i].quizId == Some(quizId) && r[i] == ts[i].(quizId := None))
  {
    if ts == [] then []
    else
      var t := ts[|ts| - 1];
      DetachQuiz(ts[..|ts| - 1], quizId) + [if t.quizId == Some(quizId) then t.(quizId := None) else t]
  }

  /** The row's question link names one of the `removed` questions. */
  predicate LinksInto(a: AttemptAnswer, removed: set<Id>)
  {
    a.questionId.Some? && a.questionId.value in removed
  }

  /** `ON DELETE SET NULL` on `attempt_answers.question_id`: deleting
      questions keeps the snapshot rows that copied them. Only the question
      link of the rows that pointed at a removed question is cleared;
      every other column of every row, and the attempt itself, stay. */
  function DetachQuestions(t: Attempt, removed: set<Id>): (r: Attempt)
    ensures |r.answers| == |t.answers|
    ensures r == t.(answers := r.answers)
    ensures forall i :: 0 <= i < |t.answers| ==> !LinksInto(r.answers[i], removed)
    ensures forall i :: 0 <= i < |t.answers| ==>
      r.answers[i].(questionId := t.answers[i].questionId) == t.answers[i]
    ensures forall i :: 0 <= i < |t.answers| && LinksInto(t.answers[i], removed) ==>
      r.answers[i].questionId.None?
    ensures forall i :: 0 <= i < |t.answers| && !LinksInto(t.answers[i], removed) ==>
      r.answers[i] == t.answers[i]
  {
    t.(answers := seq(|t.answers|, i requires 0 <= i < |t.answers| =>
      var a := t.answers[i];
      if LinksInto(a, removed) then a.(questionId := None) else a))
  }

  /** Neither cascade touches what the invariant speaks of: the snapshot,
      the grading and the totals stay as they were. */
  lemma DetachKeepsConsistent(ts: seq<Attempt>, quizId: Id, removed: set<Id>)
    requires forall i :: 0 <= i < |ts| ==> Consistent(ts[i])
    ensures forall i :: 0 <= i < |ts| ==> Consistent(DetachQuiz(ts, quizId)[i])
    ensures forall i :: 0 <= i < |ts| ==> Consistent(DetachQuestions(ts[i], removed))
  {
    forall i | 0 <= i < |ts|
      ensures Consistent(DetachQuestions(ts[i], removed))
    {
      var t := ts[i];
      var r := DetachQuestions(t, removed);
      SumPointsSameShape(t.answers, r.answers);
    }
  }

  /** Rows that agree on points and outcome sum alike. */
  lemma {:induction false} SumPointsSameShape(xs: seq<AttemptAnswer>, ys: seq<AttemptAnswer>)
    requires |xs| == |ys|
    requires forall i :: 0 <= i < |xs| ==>
      xs[i].questionPoints == ys[i].questionPoints && xs[i].pointsEarned == ys[i].pointsEarned
    ensures SumPoints(xs) == SumPoints(ys) && SumEarned(xs) == SumEarned(ys)
  {
    if xs != [] {
      SumPointsSameShape(xs[1..], ys[1..]);
    }
  }
}
