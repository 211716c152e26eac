/** `AttemptService`: the attempts table with the operations of taking a
    quiz (start, submit, read back) and the history listings, and the
    foreign-key cascades that reach it when quizzes change. */
module Attempts {
  import opened Common
  import opened QuizSchema
  import opened Quizzes
  import opened AttemptRecords
  import opened AttemptScoring
  import opened Ranking
  import opened Scoreboard

  /** One row of an `AttemptResult` (the percentage left out). */
  datatype ResultAnswer = ResultAnswer(questionOrder: int, questionText: string, questionPoints: int,
                                       selectedAnswer: Option<string>, correctAnswer: string,
                                       isCorrect: bool, pointsEarned: int)

  datatype AttemptResult = AttemptResult(attemptId: Id, quizTitle: string, totalScore: int,
                                         totalPointsPossible: int, submittedAt: Option<int>,
                                         isNewBest: bool, answers: seq<ResultAnswer>)

  /** A result row: a null outcome reads as not correct and 0 points. */
  function ResultAnswerOf(a: AttemptAnswer): ResultAnswer
  {
    ResultAnswer(a.questionOrder, a.questionText, a.questionPoints, a.selectedAnswerText, a.correctAnswerText,
                 a.isCorrect == Some(true), if a.pointsEarned.Some? then a.pointsEarned.value else 0)
  }

  function ResultOf(t: Attempt, isNewBest: bool): AttemptResult
  {
    AttemptResult(t.id, t.quizTitle, ScoreOrZero(t), t.totalPointsPossible, t.submittedAt, isNewBest,
                  seq(|t.answers|, i requires 0 <= i < |t.answers| => ResultAnswerOf(t.answers[i])))
  }

  /** The result assembled from the graded rows is the stored outcome. */
  lemma ResultFromRows(t: Attempt, isNewBest: bool, total: int, results: seq<ResultAnswer>)
    requires t.totalScore == Some(total)
    requires |results| == |t.answers| && forall i :: 0 <= i < |results| ==> results[i] == ResultAnswerOf(t.answers[i])
    ensures ResultOf(t, isNewBest)
      == AttemptResult(t.id, t.quizTitle, total, t.totalPointsPossible, t.submittedAt, isNewBest, results)
  {
  }

  predicate UniqueAttemptIds(ts: seq<Attempt>)
  {
    forall i, j :: 0 <= i < |ts| && 0 <= j < |ts| && ts[i].id == ts[j].id ==> i == j
  }

  predicate AllConsistent(ts: seq<Attempt>)
  {
    forall i :: 0 <= i < |ts| ==> Consistent(ts[i])
  }

  predicate IdsBelow(ts: seq<Attempt>, n: nat)
  {
    forall i :: 0 <= i < |ts| ==> ts[i].id < n
  }

  predicate AttemptTableOk(ts: seq<Attempt>, nextId: nat)
  {
    UniqueAttemptIds(ts) && AllConsistent(ts) && IdsBelow(ts, nextId)
  }

  /** The attempt `submit_quiz` and `get_results` select: this id, and
      owned by this user. */
  function OwnedIndex(ts: seq<Attempt>, attemptId: Id, userId: Id): (r: Option<nat>)
    ensures r.Some? ==> r.value < |ts| && ts[r.value].id == attemptId && ts[r.value].userId == userId
    ensures r.None? <==> forall i :: 0 <= i < |ts| ==> ts[i].id != attemptId || ts[i].userId != userId
  {
    FirstIndex(ts, (t: Attempt) => t.id == attemptId && t.userId == userId)
  }

  /** The loop of `start_quiz`: one snapshot row and one view question per
      question, in question order, row ids drawn from `firstId` upwards. */
  method BuildSnapshot(qs: seq<Question>, firstId: Id) returns (rows: seq<AttemptAnswer>, view: seq<TakingQuestion>)
    ensures rows == SnapshotRows(qs, firstId)
    ensures view == ViewQuestions(qs)
  {
    rows := [];
    view := [];
    var i := 0;
    while i < |qs|
      invariant 0 <= i <= |qs|
      invariant |rows| == i && |view| == i
      invariant forall k :: 0 <= k < i ==> rows[k] == SnapshotRow(qs[k], firstId + k)
      invariant forall k :: 0 <= k < i ==> view[k] == TakingQuestionOf(qs[k])
    {
      rows := rows + [SnapshotRow(qs[i], firstId + i)];
      view := view + [TakingQuestionOf(qs[i])];
      i := i + 1;
    }
  }

  /** The loop of `submit_quiz`: each row graded, the points accumulated,
      and the result rows built alongside. */
  method GradeAnswers(rows: seq<AttemptAnswer>, subs: seq<Submission>, texts: map<Id, string>)
    returns (graded: seq<AttemptAnswer>, results: seq<ResultAnswer>, total: int)
    ensures graded == GradeRows(rows, subs, texts)
    ensures total == SumEarned(graded)
    ensures |results| == |rows| && forall i :: 0 <= i < |rows| ==> results[i] == ResultAnswerOf(graded[i])
  {
    graded := [];
    results := [];
    total := 0;
    var i := 0;
    while i < |rows|
      invariant 0 <= i <= |rows|
      invariant |graded| == i && |results| == i
      invariant forall k :: 0 <= k < i ==> graded[k] == GradeRow(rows[k], subs, texts)
      invariant forall k :: 0 <= k < i ==> results[k] == ResultAnswerOf(graded[k])
      invariant total == SumEarned(graded)
    {
      var g := GradeRow(rows[i], subs, texts);
      SumEarnedAppend(graded, g);
      total := total + g.pointsEarned.value;
      graded := graded + [g];
      results := results + [ResultAnswerOf(g)];
      i := i + 1;
    }
  }

  /** The attempt `start_quiz` creates: in progress, linked to the quiz
      and the user, holding one snapshot row per question in question
      order (row ids following the attempt's), the points summed as the
      possible total. */
  function SnapshotAttempt(q: Quiz, id: Id, userId: Id, now: int): (t: Attempt)
    ensures t.id == id && t.userId == userId && t.quizId == Some(q.id) && t.quizTitle == q.title
    ensures t.status == InProgress && t.totalScore.None? && t.submittedAt.None? && t.startedAt == now
    ensures |t.answers| == |q.questions|
    ensures forall i :: 0 <= i < |q.questions| ==> t.answers[i] == SnapshotRow(q.questions[i], id + 1 + i)
    ensures t.totalPointsPossible == QuestionPoints(q.questions)
  {
    Attempt(id, userId, Some(q.id), q.title, QuestionPoints(q.questions), None, now, None, InProgress,
            SnapshotRows(q.questions, id + 1))
  }

  /** The questions of the quiz-taking view, in question order. */
  function ViewQuestions(qs: seq<Question>): (r: seq<TakingQuestion>)
    ensures |r| == |qs| && forall i :: 0 <= i < |qs| ==> r[i] == TakingQuestionOf(qs[i])
  {
    seq(|qs|, i requires 0 <= i < |qs| => TakingQuestionOf(qs[i]))
  }

  /** The quiz-taking view `start_quiz` returns. */
  function ViewOf(q: Quiz, attemptId: Id): TakingView
  {
    TakingView(attemptId, q.title, ViewQuestions(q.questions), |q.questions|)
  }

  /** The snapshot of a stored quiz is a consistent attempt in progress
      with a positive possible total. */
  lemma SnapshotConsistent(q: Quiz, nextId: nat, id: Id, userId: Id, now: int)
    requires Stored(q, nextId)
    ensures Consistent(SnapshotAttempt(q, id, userId, now))
    ensures SnapshotAttempt(q, id, userId, now).totalPointsPossible > 0
  {
    var t := SnapshotAttempt(q, id, userId, now);
    var c := Content(q);
    assert |c.questions| == |q.questions|;
    forall i | 0 <= i < |t.answers|
      ensures t.answers[i].questionOrder == i + 1 && t.answers[i].questionPoints >= 1
    {
      assert c.questions[i] == QuestionContent(q.questions[i]);
      assert WellFormedQuestion(c.questions[i]);
    }
    SnapshotPoints(q.questions, id + 1);
    SumPointsPositive(t.answers);
  }

  /** The attempt `start_quiz` assembles from the rows it built is the
      snapshot of the quiz. */
  lemma SnapshotAttemptOf(q: Quiz, id: Id, userId: Id, now: int, rows: seq<AttemptAnswer>)
    requires rows == SnapshotRows(q.questions, id + 1)
    ensures SnapshotAttempt(q, id, userId, now)
      == Attempt(id, userId, Some(q.id), q.title, QuestionPoints(q.questions), None, now, None, InProgress, rows)
  {
  }

  /** Appending the snapshot of a stored quiz keeps the table invariant. */
  lemma StartKeepsTable(ts: seq<Attempt>, nextId: nat, q: Quiz, quizNextId: nat, userId: Id, now: int)
    requires AttemptTableOk(ts, nextId) && Stored(q, quizNextId)
    ensures AttemptTableOk(ts + [SnapshotAttempt(q, nextId, userId, now)], nextId + 1 + |q.questions|)
  {
    SnapshotConsistent(q, quizNextId, nextId, userId, now);
    AppendKeepsAttempts(ts, nextId, SnapshotAttempt(q, nextId, userId, now), nextId + 1 + |q.questions|);
  }

  lemma AppendKeepsAttempts(ts: seq<Attempt>, nextId: nat, t: Attempt, after: nat)
    requires AttemptTableOk(ts, nextId) && Consistent(t) && t.id == nextId && nextId < after
    ensures AttemptTableOk(ts + [t], after)
  {
  }

  lemma ReplaceKeepsAttempts(ts: seq<Attempt>, nextId: nat, j: nat, t: Attempt)
    requires AttemptTableOk(ts, nextId) && j < |ts| && Consistent(t) && t.id == ts[j].id
    ensures AttemptTableOk(ts[j := t], nextId)
  {
  }

  /** Scores in a consistent table are never negative. */
  lemma TableScoresNonNegative(ts: seq<Attempt>)
    requires AllConsistent(ts)
    ensures ScoresNonNegative(ts)
  {
    forall i | 0 <= i < |ts|
      ensures Scoreboard.ScoreOf(ts[i]) >= 0
    {
      ConsistentRowOk(ts[i]);
    }
  }

  /** With identifiers unique, the lookup finds the one row that has the id. */
  lemma OwnedIndexUnique(ts: seq<Attempt>, j: nat)
    requires UniqueAttemptIds(ts) && j < |ts|
    ensures OwnedIndex(ts, ts[j].id, ts[j].userId) == Some(j)
  {
  }

  /** The `quiz_attempts` table with its answer rows. */
  class AttemptStore {
    var attempts: seq<Attempt>
    var nextId: Id

    predicate Valid()
      reads this
    {
      AttemptTableOk(attempts, nextId)
    }

    constructor()
      ensures Valid() && attempts == []
    {
      attempts := [];
      nextId := 0;
    }

    /** `start_quiz`: None, creating nothing, for a quiz that does not
        exist; otherwise a new attempt in progress holding a frozen copy of
        every question (its text, its points and the text of its correct
        answer) in question order, the sum of the points as the possible
        total, and the view the user answers from. */
    method StartQuiz(quizzes: QuizStore, userId: Id, quizId: Id, now: int) returns (view: Option<TakingView>)
      requires Valid() && quizzes.Valid()
      modifies this
      ensures Valid()
      ensures view.None? <==> quizzes.GetQuiz(quizId, None).None?
      ensures view.None? ==> attempts == old(attempts) && nextId == old(nextId)
      ensures view.Some? ==>
        var q := quizzes.GetQuiz(quizId, None).value;
        && attempts == old(attempts) + [SnapshotAttempt(q, old(nextId), userId, now)]
        && view.value == ViewOf(q, old(nextId))
    {
      var found := quizzes.GetQuiz(quizId, None);
      if found.None? {
        return None;
      }
      var q := found.value;
      quizzes.StoredQuiz(q);
      var id := nextId;
      var total := QuestionPoints(q.questions);
      var rows, questions := BuildSnapshot(q.questions, id + 1);
      var t := Attempt(id, userId, Some(q.id), q.title, total, None, now, None, InProgress, rows);
      SnapshotAttemptOf(q, id, userId, now, rows);
      StartKeepsTable(attempts, id, q, quizzes.nextId, userId, now);
      attempts := attempts + [t];
      nextId := id + 1 + |q.questions|;
      view := Some(TakingView(id, q.title, questions, |questions|));
    }

    /** `get_results`: the stored outcome of an attempt, only for its owner
        and only once it is submitted. */
    function GetResults(attemptId: Id, userId: Id): (r: Option<AttemptResult>)
      reads this
      ensures var k := OwnedIndex(attempts, attemptId, userId);
        r.Some? <==> k.Some? && attempts[k.value].status == Submitted
      ensures r.Some? ==> r.value == ResultOf(attempts[OwnedIndex(attempts, attemptId, userId).value], false)
    {
      match OwnedIndex(attempts, attemptId, userId)
      case None => None
      case Some(k) => if attempts[k].status != Submitted then None else Some(ResultOf(attempts[k], false))
    }

    /** `submit_quiz`: None, changing nothing, unless the attempt is this
        user's and still in progress. Otherwise each row is graded, the
        attempt becomes submitted at `now` with the points earned as its
        score, the scoreboard row of the user is recomputed, and the result
        reports whether the score beats every earlier one on the quiz. */
    method SubmitQuiz(board: ScoreboardStore, texts: map<Id, string>, attemptId: Id, userId: Id,
                      subs: seq<Submission>, now: int) returns (r: Option<AttemptResult>)
      requires Valid() && board.Valid()
      modifies this, board
      ensures Valid() && board.Valid()
      ensures nextId == old(nextId)
      ensures var k := OwnedIndex(old(attempts), attemptId, userId);
        r.None? <==> k.None? || old(attempts)[k.value].status == Submitted
      ensures r.None? ==> attempts == old(attempts) && board.rows == old(board.rows)
      ensures r.Some? ==>
        var j := OwnedIndex(old(attempts), attemptId, userId).value;
        var t := Submit(old(attempts)[j], subs, texts, now);
        && attempts == old(attempts)[j := t]
        && r.value == ResultOf(t, IsNewBest(attempts, userId, t.quizId, t.totalScore.value, attemptId))
        && 0 <= r.value.totalScore <= r.value.totalPointsPossible
        && GetResults(attemptId, userId) == Some(r.value.(isNewBest := false))
      ensures r.Some? ==>
        var row := UserIndex(board.rows, userId);
        && row.Some?
        && board.rows[row.value].totalScore == TotalBest(attempts, userId)
        && board.rows[row.value].quizzesCompleted == QuizzesCompleted(attempts, userId)
      ensures r.Some? ==>
        var row := UserScore(userId, AnonymousName, TotalBest(attempts, userId), QuizzesCompleted(attempts, userId), now);
        match UserIndex(old(board.rows), userId)
        case Some(j) => board.rows == old(board.rows)[j := row.(displayName := old(board.rows)[j].displayName)]
        case None => board.rows == old(board.rows) + [row]
    {
      var ts := attempts;
      var found := OwnedIndex(ts, attemptId, userId);
      if found.None? {
        return None;
      }
      var j := found.value;
      var before := ts[j];
      if before.status == Submitted {
        return None;
      }
      var graded, results, total := GradeAnswers(before.answers, subs, texts);
      var t := before.(answers := graded, totalScore := Some(total), submittedAt := Some(now), status := Submitted);
      assert t == Submit(before, subs, texts, now);
      SubmitKeepsConsistent(before, subs, texts, now);
      ReplaceKeepsAttempts(ts, nextId, j, t);
      var updated := ts[j := t];
      OwnedIndexUnique(updated, j);
      var isNewBest := IsNewBest(updated, userId, t.quizId, total, attemptId);
      TableScoresNonNegative(updated);
      ResultFromRows(t, isNewBest, total, results);
      attempts := updated;
      var _ := board.UpdateUserScore(updated, userId, AnonymousName, now);
      r := Some(AttemptResult(t.id, t.quizTitle, total, t.totalPointsPossible, t.submittedAt, isNewBest, results));
    }

    /** `get_quiz_history`: None for a quiz that does not exist; otherwise
        the user's submitted attempts on it, newest first, each flagged when
        its score is the best among them. */
    method GetQuizHistory(quizzes: QuizStore, userId: Id, quizId: Id) returns (r: Option<seq<HistoryItem>>)
      ensures r.None? <==> quizzes.GetQuiz(quizId, None).None?
      ensures r.Some? ==>
        var s := NewestFirst(SubmittedBy(attempts, userId, Some(quizId)));
        && |r.value| == |s|
        && forall k :: 0 <= k < |s| ==> r.value[k] == HistoryItemOf(s[k], HistoryBest(s[k], BestScore(s)))
    {
      if quizzes.GetQuiz(quizId, None).None? {
        return None;
      }
      var s := NewestFirst(SubmittedBy(attempts, userId, Some(quizId)));
      if s == [] {
        return Some([]);
      }
      var items := FlagHistory(s, BestScore(s));
      r := Some(items);
    }

    /** `get_my_attempts` behind the clamp of its route: one page of the
        user's submitted attempts over all quizzes, newest first, each
        flagged when it holds the best score of its quiz, and the count of
        all of them. */
    method GetMyAttempts(userId: Id, limit: int, offset: int)
      returns (items: seq<HistoryItem>, total: nat, usedLimit: nat, usedOffset: nat)
      ensures usedLimit == ClampLimit(limit) && usedOffset == ClampOffset(offset)
      ensures total == |SubmittedBy(attempts, userId, None)|
      ensures |items| <= usedLimit
      ensures var page := Window(NewestFirst(SubmittedBy(attempts, userId, None)), usedOffset, usedLimit);
        && |items| == |page|
        && forall k :: 0 <= k < |page| ==> items[k] == HistoryItemOf(page[k], MyAttemptBest(attempts, userId, page[k]))
    {
      usedLimit := ClampLimit(limit);
      usedOffset := ClampOffset(offset);
      var all := NewestFirst(SubmittedBy(attempts, userId, None));
      total := |all|;
      items := FlagMyAttempts(attempts, userId, Window(all, usedOffset, usedLimit));
    }

    /** The `SET NULL` cascade of deleting a quiz. */
    method DetachDeletedQuiz(quizId: Id)
      requires Valid()
      modifies this
      ensures Valid()
      ensures attempts == DetachQuiz(old(attempts), quizId) && nextId == old(nextId)
    {
      DetachKeepsConsistent(attempts, quizId, {});
      attempts := DetachQuiz(attempts, quizId);
    }

    /** The `SET NULL` cascade of deleting questions. */
    method DetachDeletedQuestions(removed: set<Id>)
      requires Valid()
      modifies this
      ensures Valid()
      ensures |attempts| == |old(attempts)| && nextId == old(nextId)
      ensures forall i :: 0 <= i < |attempts| ==> attempts[i] == DetachQuestions(old(attempts)[i], removed)
    {
      var ts := attempts;
      DetachKeepsConsistent(ts, 0, removed);
      attempts := seq(|ts|, i requires 0 <= i < |ts| => DetachQuestions(ts[i], removed));
    }
  }

  /** The item loop of `get_quiz_history`: each attempt of the history,
      flagged when it holds the best score. */
  method FlagHistory(s: seq<Attempt>, best: int) returns (items: seq<HistoryItem>)
    ensures |items| == |s|
    ensures forall k :: 0 <= k < |s| ==> items[k] == HistoryItemOf(s[k], HistoryBest(s[k], best))
  {
    items := [];
    var k := 0;
    while k < |s|
      invariant 0 <= k <= |s| && |items| == k
      invariant forall m :: 0 <= m < k ==> items[m] == HistoryItemOf(s[m], HistoryBest(s[m], best))
    {
      items := items + [HistoryItemOf(s[k], s[k].totalScore == Some(best))];
      k := k + 1;
    }
  }

  /** The item loop of `get_my_attempts`: each attempt of the page,
      flagged when it holds the best score of its quiz among all of the
      user's submitted attempts `ts`. */
  method FlagMyAttempts(ts: seq<Attempt>, userId: Id, page: seq<Attempt>) returns (items: seq<HistoryItem>)
    ensures |items| == |page|
    ensures forall k :: 0 <= k < |page| ==> items[k] == HistoryItemOf(page[k], MyAttemptBest(ts, userId, page[k]))
  {
    items := [];
    var k := 0;
    while k < |page|
      invariant 0 <= k <= |page| && |items| == k
      invariant forall m :: 0 <= m < k ==> items[m] == HistoryItemOf(page[m], MyAttemptBest(ts, userId, page[m]))
    {
      items := items + [HistoryItemOf(page[k], MyAttemptBest(ts, userId, page[k]))];
      k := k + 1;
    }
  }

  /** With consistent attempts, a non-empty history flags at least one
      attempt, and it flags exactly those no other attempt outscores. */
  lemma HistoryFlagsBest(ts: seq<Attempt>, userId: Id, quizId: Id)
    requires AllConsistent(ts)
    requires NewestFirst(SubmittedBy(ts, userId, Some(quizId))) != []
    ensures var s := NewestFirst(SubmittedBy(ts, userId, Some(quizId)));
      && (forall k :: 0 <= k < |s| ==> s[k].totalScore.Some?)
      && (exists k :: 0 <= k < |s| && HistoryBest(s[k], BestScore(s)))
      && forall k :: 0 <= k < |s| ==> (HistoryBest(s[k], BestScore(s)) <==>
           forall m :: 0 <= m < |s| ==> s[m].totalScore.value <= s[k].totalScore.value)
  {
    var s := NewestFirst(SubmittedBy(ts, userId, Some(quizId)));
    forall k | 0 <= k < |s|
      ensures s[k].totalScore.Some?
    {
      assert s[k] in multiset(SubmittedBy(ts, userId, Some(quizId)));
      var i :| 0 <= i < |ts| && ts[i] == s[k];
      assert Consistent(ts[i]);
    }
    HistoryHasBest(s);
  }

  /** `delete_quiz` together with what the database does to the attempts:
      they stay, detached from the quiz. */
  method DeleteQuizCascade(quizzes: QuizStore, store: AttemptStore, quizId: Id, ownerId: Id) returns (deleted: bool)
    requires quizzes.Valid() && store.Valid()
    modifies quizzes, store
    ensures quizzes.Valid() && store.Valid()
    ensures deleted <==> old(quizzes.GetQuiz(quizId, Some(ownerId))).Some?
    ensures deleted ==>
      var k := old(quizzes.IndexOf(quizId, Some(ownerId))).value;
      quizzes.quizzes == old(quizzes.quizzes)[..k] + old(quizzes.quizzes)[k + 1..]
    ensures deleted ==> quizzes.GetQuiz(quizId, None).None?
    ensures deleted ==>
      var removed := QuestionIds(old(quizzes.GetQuiz(quizId, Some(ownerId))).value);
      && |store.attempts| == |old(store.attempts)|
      && forall i :: 0 <= i < |store.attempts| ==>
           store.attempts[i] == DetachQuestions(DetachQuiz(old(store.attempts), quizId)[i], removed)
    ensures !deleted ==> quizzes.quizzes == old(quizzes.quizzes) && store.attempts == old(store.attempts)
    ensures quizzes.nextId == old(quizzes.nextId) && store.nextId == old(store.nextId)
  {
    var before := quizzes.GetQuiz(quizId, Some(ownerId));
    deleted := quizzes.DeleteQuiz(quizId, ownerId);
    if deleted {
      store.DetachDeletedQuiz(quizId);
      store.DetachDeletedQuestions(QuestionIds(before.value));
    }
  }

  /** The identifiers of a quiz's questions. */
  function QuestionIds(q: Quiz): set<Id>
  {
    set i | 0 <= i < |q.questions| :: q.questions[i].id
  }

  /** `update_quiz` together with what the database does to the attempts:
      the replaced questions are deleted, so snapshot rows copied from them
      lose their link and keep their copy. */
  method UpdateQuizCascade(quizzes: QuizStore, store: AttemptStore, quizId: Id, ownerId: Id, data: QuizCreate, now: int)
    returns (r: Option<Quiz>)
    requires quizzes.Valid() && store.Valid()
    requires WellFormedQuiz(data)
    modifies quizzes, store
    ensures quizzes.Valid() && store.Valid()
    ensures r.None? <==> old(quizzes.GetQuiz(quizId, Some(ownerId))).None?
    ensures r.None? ==> quizzes.quizzes == old(quizzes.quizzes) && quizzes.nextId == old(quizzes.nextId)
    ensures r.Some? ==>
      var k := old(quizzes.IndexOf(quizId, Some(ownerId))).value;
      var before := old(quizzes.quizzes)[k];
      && quizzes.quizzes == old(quizzes.quizzes)[k := r.value]
      && r.value.id == quizId && r.value.ownerId == ownerId
      && r.value.createdAt == before.createdAt
      && r.value.updatedAt == (if data.title == before.title then before.updatedAt else now)
      && Content(r.value) == data
      && Numbered(r.value.questions)
      && IdsIn(r.value.questions, old(quizzes.nextId), quizzes.nextId)
    ensures r.None? ==> store.attempts == old(store.attempts)
    ensures store.nextId == old(store.nextId)
    ensures r.Some? ==>
      var removed := QuestionIds(old(quizzes.GetQuiz(quizId, Some(ownerId))).value);
      && |store.attempts| == |old(store.attempts)|
      && forall i :: 0 <= i < |store.attempts| ==> store.attempts[i] == DetachQuestions(old(store.attempts)[i], removed)
  {
    var before := quizzes.GetQuiz(quizId, Some(ownerId));
    r := quizzes.UpdateQuiz(quizId, ownerId, data, now);
    if r.Some? {
      store.DetachDeletedQuestions(QuestionIds(before.value));
    }
  }
}
