/** The rules of quiz taking as functions: the snapshot `start_quiz` takes
    of a question, the grading `submit_quiz` applies to a snapshot row, the
    "new best" decision, and the `is_best` flags of the history listings. */
module AttemptScoring {
  import opened Common
  import opened QuizSchema
  import opened Quizzes
  import opened AttemptRecords
  import opened Sorting

  /** One `AnswerSubmission` of a submit request. */
  datatype Submission = Submission(questionId: Id, selectedAnswerId: Id)

  /** The text of the question's first correct answer, or "" when it has
      none. */
  function CorrectText(q: Question): (t: string)
    ensures (forall j :: 0 <= j < |q.answers| ==> !q.answers[j].isCorrect) ==> t == ""
    ensures (exists j :: 0 <= j < |q.answers| && q.answers[j].isCorrect) ==>
      exists j :: 0 <= j < |q.answers| && q.answers[j].isCorrect && t == q.answers[j].text
                  && forall k :: 0 <= k < j ==> !q.answers[k].isCorrect
  {
    match FirstIndex(q.answers, (a: Answer) => a.isCorrect)
    case None => ""
    case Some(j) => q.answers[j].text
  }

  /** For a stored question, which has exactly one correct answer, the
      frozen text is that answer's text. */
  lemma CorrectTextOfWellFormed(q: Question, j: nat)
    requires WellFormedQuestion(QuestionContent(q))
    requires j < |q.answers| && q.answers[j].isCorrect
    ensures CorrectText(q) == q.answers[j].text
  {
    var c := AnswersContent(q.answers);
    assert forall m :: 0 <= m < |q.answers| ==> c[m].isCorrect == q.answers[m].isCorrect;
    var k := OneCorrect(c);
  }

  /** The `attempt_answers` row `start_quiz` creates for a question. */
  function SnapshotRow(q: Question, id: Id): (a: AttemptAnswer)
    ensures Ungraded(a)
  {
    AttemptAnswer(id, Some(q.id), q.displayOrder, q.text, q.points, None, None, CorrectText(q), None, None)
  }

  function QuestionPoints(qs: seq<Question>): int
  {
    if qs == [] then 0 else QuestionPoints(qs[..|qs| - 1]) + qs[|qs| - 1].points
  }

  /** What the quiz-taking view shows of an answer and of a question: no
      correctness at all. */
  datatype TakingAnswer = TakingAnswer(id: Id, text: string)
  datatype TakingQuestion = TakingQuestion(id: Id, order: int, text: string, answers: seq<TakingAnswer>)
  datatype TakingView = TakingView(attemptId: Id, quizTitle: string, questions: seq<TakingQuestion>,
                                   totalQuestions: nat)

  function TakingQuestionOf(q: Question): TakingQuestion
  {
    TakingQuestion(q.id, q.displayOrder, q.text,
                   seq(|q.answers|, j requires 0 <= j < |q.answers| => TakingAnswer(q.answers[j].id, q.answers[j].text)))
  }

  /** The snapshot rows of a question list, row ids from `firstId` up. */
  function SnapshotRows(qs: seq<Question>, firstId: Id): (rows: seq<AttemptAnswer>)
    ensures |rows| == |qs|
    ensures forall i :: 0 <= i < |qs| ==> rows[i] == SnapshotRow(qs[i], firstId + i)
  {
    seq(|qs|, i requires 0 <= i < |qs| => SnapshotRow(qs[i], firstId + i))
  }

  /** The possible total the snapshot records is the sum of the questions'
      points. */
  lemma {:induction false} SnapshotPoints(qs: seq<Question>, firstId: Id)
    ensures SumPoints(SnapshotRows(qs, firstId)) == QuestionPoints(qs)
  {
    var rows := SnapshotRows(qs, firstId);
    if qs != [] {
      var p := qs[..|qs| - 1];
      SnapshotPoints(p, firstId);
      var prow := SnapshotRows(p, firstId);
      assert rows == prow + [rows[|qs| - 1]];
      SumPointsAppend(prow, rows[|qs| - 1]);
    }
  }

  lemma {:induction false} SumPointsAppend(rs: seq<AttemptAnswer>, a: AttemptAnswer)
    ensures SumPoints(rs + [a]) == SumPoints(rs) + a.questionPoints
  {
    if rs == [] {
      assert rs + [a] == [a];
    } else {
      assert (rs + [a])[1..] == rs[1..] + [a];
      SumPointsAppend(rs[1..], a);
    }
  }

  lemma {:induction false} SumEarnedAppend(rs: seq<AttemptAnswer>, a: AttemptAnswer)
    ensures SumEarned(rs + [a]) == SumEarned(rs) + (if a.pointsEarned.Some? then a.pointsEarned.value else 0)
  {
    if rs == [] {
      assert rs + [a] == [a];
    } else {
      assert (rs + [a])[1..] == rs[1..] + [a];
      SumEarnedAppend(rs[1..], a);
    }
  }

  /** `{str(a.question_id): a for a in answers}[question_id]`: the last
      submission for the question wins. */
  function LastSubmission(subs: seq<Submission>, questionId: Id): (r: Option<Submission>)
    ensures r.None? <==> forall i :: 0 <= i < |subs| ==> subs[i].questionId != questionId
    ensures r.Some? ==> exists i :: 0 <= i < |subs| && subs[i] == r.value && r.value.questionId == questionId
                          && forall k :: i < k < |subs| ==> subs[k].questionId != questionId
  {
    match LastIndex(subs, questionId)
    case None => None
    case Some(i) => Some(subs[i])
  }

  /** The position of the last submission for the question. */
  function LastIndex(subs: seq<Submission>, questionId: Id): (r: Option<nat>)
    ensures r.None? <==> forall i :: 0 <= i < |subs| ==> subs[i].questionId != questionId
    ensures r.Some? ==> r.value < |subs| && subs[r.value].questionId == questionId
                        && forall k :: r.value < k < |subs| ==> subs[k].questionId != questionId
  {
    if subs == [] then None
    else if subs[|subs| - 1].questionId == questionId then Some(|subs| - 1)
    else
      var p := subs[..|subs| - 1];
      assert forall i :: 0 <= i < |p| ==> p[i] == subs[i];
      LastIndex(p, questionId)
  }

  /** `answer_texts.get(selected_id, "")`: the text of any live answer
      with that id, "" for an id the answers table does not hold. */
  function SelectedText(texts: map<Id, string>, answerId: Id): string
  {
    if answerId in texts then texts[answerId] else ""
  }

  /** What `submit_quiz` does to one snapshot row. A row whose question
      was deleted (`questionId` None) matches no submission. */
  function GradeRow(a: AttemptAnswer, subs: seq<Submission>, texts: map<Id, string>): (g: AttemptAnswer)
    ensures Graded(g)
    ensures g.id == a.id && g.questionId == a.questionId && g.questionOrder == a.questionOrder
    ensures g.questionText == a.questionText && g.questionPoints == a.questionPoints
    ensures g.correctAnswerText == a.correctAnswerText
  {
    var sub := if a.questionId.Some? then LastSubmission(subs, a.questionId.value) else None;
    match sub
    case Some(s) =>
      var text := SelectedText(texts, s.selectedAnswerId);
      var correct := text == a.correctAnswerText;
      a.(selectedAnswerId := Some(s.selectedAnswerId), selectedAnswerText := Some(text),
         isCorrect := Some(correct), pointsEarned := Some(if correct then a.questionPoints else 0))
    case None =>
      a.(selectedAnswerId := None, selectedAnswerText := None, isCorrect := Some(false), pointsEarned := Some(0))
  }

  /** Grading by exact text equality: a row is marked correct exactly when
      its question's last submission selects an answer whose text is the
      frozen correct text, and then it earns the question's points. An
      unanswered row, or one whose question was deleted, earns nothing. */
  lemma GradeRowCorrectIff(a: AttemptAnswer, subs: seq<Submission>, texts: map<Id, string>)
    ensures var g := GradeRow(a, subs, texts);
      g.isCorrect == Some(true) <==>
        (a.questionId.Some? && exists i :: (0 <= i < |subs| && subs[i].questionId == a.questionId.value
          && (forall k :: i < k < |subs| ==> subs[k].questionId != a.questionId.value)
          && SelectedText(texts, subs[i].selectedAnswerId) == a.correctAnswerText))
    ensures var g := GradeRow(a, subs, texts);
      g.pointsEarned == Some(if g.isCorrect == Some(true) then a.questionPoints else 0)
    ensures var g := GradeRow(a, subs, texts);
      (a.questionId.None? || forall i :: 0 <= i < |subs| ==> subs[i].questionId != a.questionId.value) ==>
        g.selectedAnswerId.None? && g.selectedAnswerText.None? && g.isCorrect == Some(false) && g.pointsEarned == Some(0)
  {
    if a.questionId.Some? {
      var q := a.questionId.value;
      var r := LastSubmission(subs, q);
      if r.Some? {
        var i :| 0 <= i < |subs| && subs[i] == r.value && r.value.questionId == q
                 && forall k :: i < k < |subs| ==> subs[k].questionId != q;
        forall i' | 0 <= i' < |subs| && subs[i'].questionId == q
                    && (forall k :: i' < k < |subs| ==> subs[k].questionId != q)
          ensures subs[i'] == r.value
        {
          if i' != i {
            assert false;
          }
        }
      }
    }
  }

  function GradeRows(rows: seq<AttemptAnswer>, subs: seq<Submission>, texts: map<Id, string>): (r: seq<AttemptAnswer>)
    ensures |r| == |rows|
    ensures forall i :: 0 <= i < |rows| ==> r[i] == GradeRow(rows[i], subs, texts)
  {
    seq(|rows|, i requires 0 <= i < |rows| => GradeRow(rows[i], subs, texts))
  }

  /** Submissions for questions the attempt does not hold change nothing. */
  lemma ForeignSubmissionIgnored(rows: seq<AttemptAnswer>, subs: seq<Submission>, s: Submission,
                                 texts: map<Id, string>)
    requires forall i :: 0 <= i < |rows| ==> rows[i].questionId != Some(s.questionId)
    ensures GradeRows(rows, subs + [s], texts) == GradeRows(rows, subs, texts)
  {
    forall i | 0 <= i < |rows|
      ensures GradeRow(rows[i], subs + [s], texts) == GradeRow(rows[i], subs, texts)
    {
      if rows[i].questionId.Some? {
        var q := rows[i].questionId.value;
        assert (subs + [s])[..|subs + [s]| - 1] == subs;
        assert LastSubmission(subs + [s], q) == LastSubmission(subs, q);
      }
    }
  }

  /** The attempt as `submit_quiz` leaves it. */
  function Submit(t: Attempt, subs: seq<Submission>, texts: map<Id, string>, now: int): Attempt
  {
    var graded := GradeRows(t.answers, subs, texts);
    t.(answers := graded, totalScore := Some(SumEarned(graded)), submittedAt := Some(now), status := Submitted)
  }

  /** Submission turns a consistent attempt in progress into a consistent
      submitted one with the same snapshot, scored between 0 and the
      possible total. */
  lemma SubmitKeepsConsistent(t: Attempt, subs: seq<Submission>, texts: map<Id, string>, now: int)
    requires Consistent(t) && t.status == InProgress
    ensures var u := Submit(t, subs, texts, now);
      && Consistent(u) && u.status == Submitted
      && 0 <= u.totalScore.value <= u.totalPointsPossible
  {
    var graded := GradeRows(t.answers, subs, texts);
    SumPointsSameQuestions(t.answers, graded);
    ConsistentRowOk(Submit(t, subs, texts, now));
  }

  lemma {:induction false} SumPointsSameQuestions(xs: seq<AttemptAnswer>, ys: seq<AttemptAnswer>)
    requires |xs| == |ys|
    requires forall i :: 0 <= i < |xs| ==> xs[i].questionPoints == ys[i].questionPoints
    ensures SumPoints(xs) == SumPoints(ys)
  {
    if xs != [] {
      SumPointsSameQuestions(xs[1..], ys[1..]);
    }
  }

  /** Whether attempt `t` takes part in the `MAX(total_score)` of this user
      and quiz, leaving out the attempt `exclude` names. */
  predicate InBest(t: Attempt, userId: Id, quizId: Id, exclude: Option<Id>)
  {
    && t.userId == userId && t.quizId == Some(quizId) && t.status == Submitted
    && t.totalScore.Some? && (exclude.None? || t.id != exclude.value)
  }

  /** `MAX(total_score)` over the user's submitted attempts on a quiz
      (nulls ignored), None when there are none. */
  function MaxScore(ts: seq<Attempt>, userId: Id, quizId: Id, exclude: Option<Id>): (r: Option<int>)
    ensures r.None? <==> forall i :: 0 <= i < |ts| ==> !InBest(ts[i], userId, quizId, exclude)
    ensures r.Some? ==> forall i :: 0 <= i < |ts| && InBest(ts[i], userId, quizId, exclude) ==>
      ts[i].totalScore.value <= r.value
    ensures r.Some? ==> exists i :: (0 <= i < |ts| && InBest(ts[i], userId, quizId, exclude)
      && ts[i].totalScore.value == r.value)
  {
    if ts == [] then None
    else
      var p := ts[..|ts| - 1];
      var t := ts[|ts| - 1];
      var m := MaxScore(p, userId, quizId, exclude);
      assert forall i :: 0 <= i < |p| ==> p[i] == ts[i];
      if !InBest(t, userId, quizId, exclude) then m
      else if m.None? then t.totalScore
      else Some(Max(m.value, t.totalScore.value))
  }

  /** `_update_scoreboard` as written: its query runs after the submitted
      attempt has been flushed, so that attempt is among those it takes the
      maximum over. */
  function UpdateScoreboardAsWritten(ts: seq<Attempt>, userId: Id, quizId: Option<Id>, newScore: int): bool
  {
    match quizId
    case None => false
    case Some(q) =>
      var previous := MaxScore(ts, userId, q, None);
      previous.None? || newScore > previous.value
  }

  /** Once the just-submitted attempt is in the table, as written the
      decision can never be "new best". */
  lemma NewBestNeverReported(ts: seq<Attempt>, j: nat)
    requires j < |ts| && ts[j].status == Submitted && ts[j].totalScore.Some?
    ensures !UpdateScoreboardAsWritten(ts, ts[j].userId, ts[j].quizId, ts[j].totalScore.value)
  {
    if ts[j].quizId.Some? {
      assert InBest(ts[j], ts[j].userId, ts[j].quizId.value, None);
    }
  }

  /** The same one-line case from the first submission on a quiz: the only
      submitted attempt is the new one, so there is nothing to beat, yet
      "new best" is not reported. */
  lemma FirstSubmissionNotReported()
    ensures var t := Attempt(1, 7, Some(3), "Capitals", 10, Some(10), 0, Some(5), Submitted, []);
      && !UpdateScoreboardAsWritten([t], 7, Some(3), 10)
      && IsNewBest([t], 7, Some(3), 10, 1)
  {
    var t := Attempt(1, 7, Some(3), "Capitals", 10, Some(10), 0, Some(5), Submitted, []);
    assert InBest([t][0], 7, 3, None);
  }

  /** The decision the comment on the query describes: the attempt being
      submitted is left out of the previous best. */
  function IsNewBest(ts: seq<Attempt>, userId: Id, quizId: Option<Id>, newScore: int, attemptId: Id): bool
  {
    match quizId
    case None => false
    case Some(q) =>
      var previous := MaxScore(ts, userId, q, Some(attemptId));
      previous.None? || newScore > previous.value
  }

  /** A score is a new best exactly when the quiz still exists and the
      score beats every other submitted score of the user on it. */
  lemma IsNewBestIff(ts: seq<Attempt>, userId: Id, quizId: Option<Id>, newScore: int, attemptId: Id)
    ensures IsNewBest(ts, userId, quizId, newScore, attemptId) <==>
      (quizId.Some? && forall i :: 0 <= i < |ts| && InBest(ts[i], userId, quizId.value, Some(attemptId)) ==>
         ts[i].totalScore.value < newScore)
  {
  }

  /** `ORDER BY submitted_at DESC`; SQLite sorts nulls first ascending, so
      last descending. */
  predicate SubmittedLater(a: Attempt, b: Attempt)
  {
    a.submittedAt.Some? && (b.submittedAt.None? || a.submittedAt.value > b.submittedAt.value)
  }

  lemma SubmittedLaterIsStrictOrder()
    ensures StrictOrder(SubmittedLater)
  {
  }

  /** The user's submitted attempts, in table order, optionally only those
      on one quiz. */
  function SubmittedBy(ts: seq<Attempt>, userId: Id, quizId: Option<Id>): (r: seq<Attempt>)
    ensures forall t :: t in r <==> t in ts && t.userId == userId && t.status == Submitted
                                    && (quizId.None? || t.quizId == quizId)
  {
    if ts == [] then []
    else
      var rest := SubmittedBy(ts[1..], userId, quizId);
      var t := ts[0];
      assert forall x :: x in ts <==> x == t || x in ts[1..];
      if t.userId == userId && t.status == Submitted && (quizId.None? || t.quizId == quizId)
      then [t] + rest else rest
  }

  /** The newest-first listing the history queries return. */
  function NewestFirst(ts: seq<Attempt>): (r: seq<Attempt>)
    ensures multiset(r) == multiset(ts) && |r| == |ts|
  {
    Sort(ts, SubmittedLater)
  }

  lemma NewestFirstOrdered(ts: seq<Attempt>)
    ensures Ordered(NewestFirst(ts), SubmittedLater)
  {
    SubmittedLaterIsStrictOrder();
    SortOrdered(ts, SubmittedLater);
  }

  /** One `AttemptHistoryItem` (the percentage left out). */
  datatype HistoryItem = HistoryItem(attemptId: Id, quizTitle: string, totalScore: int,
                                     totalPointsPossible: int, submittedAt: Option<int>, isBest: bool)

  function ScoreOrZero(t: Attempt): int
  {
    if t.totalScore.Some? then t.totalScore.value else 0
  }

  function HistoryItemOf(t: Attempt, isBest: bool): HistoryItem
  {
    HistoryItem(t.id, t.quizTitle, ScoreOrZero(t), t.totalPointsPossible, t.submittedAt, isBest)
  }

  /** `max(a.total_score or 0 for a in attempts)`. */
  function BestScore(ts: seq<Attempt>): (b: int)
    requires ts != []
    ensures forall i :: 0 <= i < |ts| ==> ScoreOrZero(ts[i]) <= b
    ensures exists i :: 0 <= i < |ts| && ScoreOrZero(ts[i]) == b
  {
    if |ts| == 1 then ScoreOrZero(ts[0])
    else
      var p := ts[..|ts| - 1];
      assert forall i :: 0 <= i < |p| ==> p[i] == ts[i];
      Max(BestScore(p), ScoreOrZero(ts[|ts| - 1]))
  }

  /** `is_best` of `get_quiz_history`: the score equals the best one. A
      null score is never best, not even against a best of 0. */
  function HistoryBest(t: Attempt, best: int): bool
  {
    t.totalScore == Some(best)
  }

  /** Ties are all flagged, and when every score is set (as it is for
      submitted attempts) at least one attempt is flagged. */
  lemma HistoryHasBest(ts: seq<Attempt>)
    requires ts != []
    requires forall i :: 0 <= i < |ts| ==> ts[i].totalScore.Some?
    ensures exists i :: 0 <= i < |ts| && HistoryBest(ts[i], BestScore(ts))
    ensures forall i :: 0 <= i < |ts| ==> (HistoryBest(ts[i], BestScore(ts)) <==>
      forall k :: 0 <= k < |ts| ==> ts[k].totalScore.value <= ts[i].totalScore.value)
  {
    var b := BestScore(ts);
    var m :| 0 <= m < |ts| && ScoreOrZero(ts[m]) == b;
    assert HistoryBest(ts[m], b);
    forall i | 0 <= i < |ts|
      ensures HistoryBest(ts[i], b) <==> forall k :: 0 <= k < |ts| ==> ts[k].totalScore.value <= ts[i].totalScore.value
    {
      BestAttainedIff(ts, b, m, i);
    }
  }

  /** With `b` an attained upper bound of the scores, an attempt scores `b`
      exactly when no attempt scores more. */
  lemma BestAttainedIff(ts: seq<Attempt>, b: int, m: nat, i: nat)
    requires forall k :: 0 <= k < |ts| ==> ts[k].totalScore.Some? && ScoreOrZero(ts[k]) <= b
    requires m < |ts| && ScoreOrZero(ts[m]) == b && i < |ts|
    ensures HistoryBest(ts[i], b) <==> forall k :: 0 <= k < |ts| ==> ts[k].totalScore.value <= ts[i].totalScore.value
  {
    assert ScoreOrZero(ts[m]) == ts[m].totalScore.value;
  }

  /** `is_best` of `get_my_attempts`: the attempt's score equals the
      `MAX(total_score)` of its quiz over all the user's submitted
      attempts; an attempt whose quiz was deleted looks up no maximum. */
  function MyAttemptBest(ts: seq<Attempt>, userId: Id, t: Attempt): bool
  {
    (if t.quizId.Some? then MaxScore(ts, userId, t.quizId.value, None) else None) == t.totalScore
  }

  /** A listed attempt with a score and a live quiz is flagged exactly when
      no submitted attempt of the user on that quiz scored more. */
  lemma MyAttemptBestIff(ts: seq<Attempt>, userId: Id, j: nat)
    requires j < |ts| && ts[j].userId == userId && ts[j].status == Submitted
    requires ts[j].totalScore.Some?
    ensures ts[j].quizId.None? ==> !MyAttemptBest(ts, userId, ts[j])
    ensures ts[j].quizId.Some? ==> (MyAttemptBest(ts, userId, ts[j]) <==>
      forall i :: 0 <= i < |ts| && InBest(ts[i], userId, ts[j].quizId.value, None) ==>
        ts[i].totalScore.value <= ts[j].totalScore.value)
  {
    if ts[j].quizId.Some? {
      assert InBest(ts[j], userId, ts[j].quizId.value, None);
    }
  }

  /** The clamp the `/my-attempts` route applies before calling the
      service: a limit outside 1..100 becomes 20, a negative offset 0. */
  function ClampLimit(limit: int): (r: nat)
    ensures 1 <= r <= 100
    ensures 1 <= limit <= 100 ==> r == limit
    ensures !(1 <= limit <= 100) ==> r == 20
  {
    if limit < 1 || limit > 100 then 20 else limit
  }

  function ClampOffset(offset: int): (r: nat)
    ensures offset >= 0 ==> r == offset
    ensures offset < 0 ==> r == 0
  {
    if offset < 0 then 0 else offset
  }
}
