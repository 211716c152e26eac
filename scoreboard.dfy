/** The scoreboard write side: a user's aggregate is recomputed from the
    attempts table (the best submitted score of each quiz that still
    exists, summed) and upserted into `user_scores`. */
module Scoreboard {
  import opened Common
  import opened AttemptRecords
  import opened Ranking

  /** The rows `update_user_score` groups: this user's submitted attempts
      whose quiz has not been deleted. */
  predicate Counts(t: Attempt, userId: Id)
  {
    t.userId == userId && t.status == Submitted && t.quizId.Some?
  }

  /** An attempt's score as `MAX(total_score)` and `best_score or 0` see
      it: with scores non-negative, a null counts exactly as 0 would. */
  function ScoreOf(t: Attempt): int
  {
    if t.totalScore.Some? then t.totalScore.value else 0
  }

  predicate ScoresNonNegative(ts: seq<Attempt>)
  {
    forall i :: 0 <= i < |ts| ==> ScoreOf(ts[i]) >= 0
  }

  /** `SELECT quiz_id, MAX(total_score) ... GROUP BY quiz_id`, as a map
      from quiz to best score, folded over the table. */
  function BestPerQuiz(ts: seq<Attempt>, userId: Id): map<Id, int>
  {
    if ts == [] then map[]
    else
      var m := BestPerQuiz(ts[..|ts| - 1], userId);
      var t := ts[|ts| - 1];
      if !Counts(t, userId) then m
      else
        var q := t.quizId.value;
        m[q := if q in m then Max(m[q], ScoreOf(t)) else ScoreOf(t)]
  }

  /** The groups' quiz ids, each once, in order of first appearance. */
  function QuizOrder(ts: seq<Attempt>, userId: Id): (o: seq<Id>)
    ensures forall i, j :: 0 <= i < j < |o| ==> o[i] != o[j]
    ensures forall q :: q in o <==> q in BestPerQuiz(ts, userId)
  {
    if ts == [] then []
    else
      var o := QuizOrder(ts[..|ts| - 1], userId);
      var t := ts[|ts| - 1];
      if Counts(t, userId) && t.quizId.value !in o then o + [t.quizId.value] else o
  }

  function SumOver(o: seq<Id>, m: map<Id, int>): int
    requires forall q :: q in o ==> q in m
  {
    if o == [] then 0 else SumOver(o[..|o| - 1], m) + m[o[|o| - 1]]
  }

  /** The `total_score` that `update_user_score` stores. */
  function TotalBest(ts: seq<Attempt>, userId: Id): int
  {
    SumOver(QuizOrder(ts, userId), BestPerQuiz(ts, userId))
  }

  /** The `quizzes_completed` that `update_user_score` stores. */
  function QuizzesCompleted(ts: seq<Attempt>, userId: Id): nat
  {
    |QuizOrder(ts, userId)|
  }

  /** A quiz has a best score exactly when one of the user's submitted
      attempts points at it. */
  lemma {:induction false} BestDomain(ts: seq<Attempt>, userId: Id, q: Id)
    ensures q in BestPerQuiz(ts, userId) <==>
      exists i :: 0 <= i < |ts| && Counts(ts[i], userId) && ts[i].quizId == Some(q)
  {
    if ts != [] {
      var p := ts[..|ts| - 1];
      BestDomain(p, userId, q);
      if exists i :: 0 <= i < |p| && Counts(p[i], userId) && p[i].quizId == Some(q) {
        var i :| 0 <= i < |p| && Counts(p[i], userId) && p[i].quizId == Some(q);
        assert ts[i] == p[i];
      }
      if exists i :: 0 <= i < |ts| && Counts(ts[i], userId) && ts[i].quizId == Some(q) {
        var i :| 0 <= i < |ts| && Counts(ts[i], userId) && ts[i].quizId == Some(q);
        if i < |p| {
          assert p[i] == ts[i];
        }
      }
    }
  }

  /** The best of a quiz is at least every submitted score on it... */
  lemma {:induction false} BestIsUpperBound(ts: seq<Attempt>, userId: Id, i: nat)
    requires i < |ts| && Counts(ts[i], userId)
    ensures ts[i].quizId.value in BestPerQuiz(ts, userId)
    ensures ScoreOf(ts[i]) <= BestPerQuiz(ts, userId)[ts[i].quizId.value]
  {
    var p := ts[..|ts| - 1];
    var q := ts[i].quizId.value;
    if i < |p| {
      assert p[i] == ts[i];
      BestIsUpperBound(p, userId, i);
    }
  }

  /** ...and is one of them. */
  lemma {:induction false} BestIsAchieved(ts: seq<Attempt>, userId: Id, q: Id)
    requires q in BestPerQuiz(ts, userId)
    ensures exists i :: 0 <= i < |ts| && Counts(ts[i], userId) && ts[i].quizId == Some(q)
                        && ScoreOf(ts[i]) == BestPerQuiz(ts, userId)[q]
  {
    var p := ts[..|ts| - 1];
    var t := ts[|ts| - 1];
    var m := BestPerQuiz(p, userId);
    if q in m && (!Counts(t, userId) || t.quizId != Some(q) || ScoreOf(t) <= m[q]) {
      BestIsAchieved(p, userId, q);
      var i :| 0 <= i < |p| && Counts(p[i], userId) && p[i].quizId == Some(q) && ScoreOf(p[i]) == m[q];
      assert ts[i] == p[i];
    } else {
      assert Counts(t, userId) && t.quizId == Some(q);
    }
  }

  function Elems(o: seq<Id>): set<Id>
  {
    set q | q in o
  }

  lemma {:induction false} DistinctLength(o: seq<Id>)
    requires forall i, j :: 0 <= i < j < |o| ==> o[i] != o[j]
    ensures |Elems(o)| == |o|
  {
    if o != [] {
      var p := o[..|o| - 1];
      var x := o[|o| - 1];
      DistinctLength(p);
      assert o == p + [x];
      assert x !in Elems(p);
      assert Elems(o) == Elems(p) + {x};
    }
  }

  /** `quizzes_completed` counts the distinct quizzes with a best score. */
  lemma QuizzesCompletedIsQuizCount(ts: seq<Attempt>, userId: Id)
    ensures QuizzesCompleted(ts, userId) == |BestPerQuiz(ts, userId).Keys|
  {
    var o := QuizOrder(ts, userId);
    DistinctLength(o);
    assert Elems(o) == BestPerQuiz(ts, userId).Keys;
  }

  lemma {:induction false} SumOverNonNegative(o: seq<Id>, m: map<Id, int>)
    requires forall q :: q in o ==> q in m && m[q] >= 0
    ensures SumOver(o, m) >= 0
  {
    if o != [] {
      SumOverNonNegative(o[..|o| - 1], m);
    }
  }

  lemma {:induction false} BestNonNegative(ts: seq<Attempt>, userId: Id, q: Id)
    requires ScoresNonNegative(ts)
    requires q in BestPerQuiz(ts, userId)
    ensures BestPerQuiz(ts, userId)[q] >= 0
  {
    BestIsAchieved(ts, userId, q);
  }

  /** With the attempts table's scores non-negative, so is the aggregate,
      as the `user_scores` check constraints demand. */
  lemma TotalNonNegative(ts: seq<Attempt>, userId: Id)
    requires ScoresNonNegative(ts)
    ensures TotalBest(ts, userId) >= 0
  {
    forall q | q in QuizOrder(ts, userId)
      ensures BestPerQuiz(ts, userId)[q] >= 0
    {
      BestNonNegative(ts, userId, q);
    }
    SumOverNonNegative(QuizOrder(ts, userId), BestPerQuiz(ts, userId));
  }

  /** A key outside the order does not take part in the sum. */
  lemma {:induction false} SumOverOutside(o: seq<Id>, m: map<Id, int>, q: Id, v: int)
    requires forall k :: k in o ==> k in m
    requires q !in o
    ensures SumOver(o, m[q := v]) == SumOver(o, m)
  {
    if o != [] {
      SumOverOutside(o[..|o| - 1], m, q, v);
    }
  }

  /** A key listed once contributes its value once. */
  lemma {:induction false} SumOverUpdate(o: seq<Id>, m: map<Id, int>, q: Id, v: int)
    requires forall k :: k in o ==> k in m
    requires forall i, j :: 0 <= i < j < |o| ==> o[i] != o[j]
    requires q in o
    ensures SumOver(o, m[q := v]) == SumOver(o, m) - m[q] + v
  {
    var p := o[..|o| - 1];
    if o[|o| - 1] == q {
      assert q !in p;
      SumOverOutside(p, m, q, v);
    } else {
      assert q in p;
      SumOverUpdate(p, m, q, v);
    }
  }

  /** Recomputing after one more attempt is the old aggregate plus what
      that attempt improves: its score on a quiz not yet counted, or the
      amount by which it beats the quiz's best; nothing when it belongs
      to someone else, is not submitted or has lost its quiz. */
  lemma TotalAfterAppend(ts: seq<Attempt>, t: Attempt, userId: Id)
    ensures var m := BestPerQuiz(ts, userId);
      TotalBest(ts + [t], userId) == TotalBest(ts, userId) +
        (if !Counts(t, userId) then 0
         else if t.quizId.value !in m then ScoreOf(t)
         else Max(0, ScoreOf(t) - m[t.quizId.value]))
  {
    var s := ts + [t];
    assert s[..|s| - 1] == ts;
    var m := BestPerQuiz(ts, userId);
    var o := QuizOrder(ts, userId);
    if Counts(t, userId) {
      var q := t.quizId.value;
      if q in m {
        SumOverUpdate(o, m, q, Max(m[q], ScoreOf(t)));
      } else {
        SumOverOutside(o, m, q, ScoreOf(t));
        assert (o + [q])[..|o + [q]| - 1] == o;
      }
    }
  }

  /** An attempt that does not beat the quiz's best leaves the aggregate
      as it was; one that does raises it. */
  lemma TotalMonotone(ts: seq<Attempt>, t: Attempt, userId: Id)
    requires ScoreOf(t) >= 0
    ensures TotalBest(ts, userId) <= TotalBest(ts + [t], userId)
  {
    TotalAfterAppend(ts, t, userId);
  }

  /** Deleting a quiz drops it from the user's groups and leaves the
      other groups' bests as they were. */
  lemma {:induction false} BestAfterDetach(ts: seq<Attempt>, quizId: Id, userId: Id)
    ensures BestPerQuiz(DetachQuiz(ts, quizId), userId) == BestPerQuiz(ts, userId) - {quizId}
  {
    if ts != [] {
      var p := ts[..|ts| - 1];
      var d := DetachQuiz(ts, quizId);
      BestAfterDetach(p, quizId, userId);
      assert d[..|d| - 1] == DetachQuiz(p, quizId);
    }
  }

  /** Deleting a quiz takes exactly its best score out of the user's
      total and one quiz out of the count, as the `quiz_id IS NOT NULL`
      filter of the aggregation query makes it. */
  lemma {:induction false} TotalAfterDetach(ts: seq<Attempt>, quizId: Id, userId: Id)
    ensures var m := BestPerQuiz(ts, userId);
      TotalBest(DetachQuiz(ts, quizId), userId) == TotalBest(ts, userId) - (if quizId in m then m[quizId] else 0)
  {
    if ts != [] {
      var p := ts[..|ts| - 1];
      var t := ts[|ts| - 1];
      var dp := DetachQuiz(p, quizId);
      var d := DetachQuiz(ts, quizId);
      var t' := d[|d| - 1];
      assert d == dp + [t'];
      assert ts == p + [t];
      TotalAfterDetach(p, quizId, userId);
      TotalAfterAppend(p, t, userId);
      TotalAfterAppend(dp, t', userId);
      BestAfterDetach(p, quizId, userId);
      var m := BestPerQuiz(p, userId);
      if !Counts(t, userId) {
        assert !Counts(t', userId) && BestPerQuiz(ts, userId) == m;
      } else if t.quizId == Some(quizId) {
        assert !Counts(t', userId);
      } else {
        assert t' == t;
      }
    }
  }

  lemma CompletedAfterDetach(ts: seq<Attempt>, quizId: Id, userId: Id)
    ensures var m := BestPerQuiz(ts, userId);
      QuizzesCompleted(DetachQuiz(ts, quizId), userId) == QuizzesCompleted(ts, userId) - (if quizId in m then 1 else 0)
  {
    BestAfterDetach(ts, quizId, userId);
    QuizzesCompletedIsQuizCount(ts, userId);
    QuizzesCompletedIsQuizCount(DetachQuiz(ts, quizId), userId);
    var m := BestPerQuiz(ts, userId);
    assert (m - {quizId}).Keys == m.Keys - {quizId};
  }

  /** The loop form of the `GROUP BY quiz_id` query: one pass over the
      table keeping each quiz's best submitted score of the user. */
  method GroupBest(attempts: seq<Attempt>, userId: Id) returns (best: map<Id, int>, order: seq<Id>)
    ensures best == BestPerQuiz(attempts, userId)
    ensures order == QuizOrder(attempts, userId)
  {
    best := map[];
    order := [];
    var i := 0;
    while i < |attempts|
      invariant 0 <= i <= |attempts|
      invariant best == BestPerQuiz(attempts[..i], userId)
      invariant order == QuizOrder(attempts[..i], userId)
    {
      var t := attempts[i];
      assert attempts[..i + 1][..i] == attempts[..i];
      if t.userId == userId && t.status == Submitted && t.quizId.Some? {
        var q := t.quizId.value;
        var score := if t.totalScore.Some? then t.totalScore.value else 0;
        if q in best {
          if score > best[q] {
            best := best[q := score];
          }
        } else {
          best := best[q := score];
          order := order + [q];
        }
      }
      i := i + 1;
    }
    assert attempts[..i] == attempts;
  }

  /** `sum(row.best_score or 0 for row in rows)` and `len(rows)`. */
  method AggregateScores(attempts: seq<Attempt>, userId: Id) returns (total: int, completed: nat)
    ensures total == TotalBest(attempts, userId)
    ensures completed == QuizzesCompleted(attempts, userId)
  {
    var best, order := GroupBest(attempts, userId);
    total := 0;
    var k := 0;
    while k < |order|
      invariant 0 <= k <= |order|
      invariant total == SumOver(order[..k], best)
    {
      assert order[..k + 1][..k] == order[..k];
      total := total + best[order[k]];
      k := k + 1;
    }
    assert order[..k] == order;
    completed := |order|;
  }

  /** The row `update_user_score` writes for `userId`, given the name the
      existing row has (None when there is none). */
  function ScoreRow(attempts: seq<Attempt>, userId: Id, storedName: Option<string>,
                    displayName: string, now: int): UserScore
  {
    var name := if storedName.Some? && (displayName == "" || displayName == AnonymousName)
                then storedName.value else displayName;
    UserScore(userId, name, TotalBest(attempts, userId), QuizzesCompleted(attempts, userId), now)
  }

  predicate TableOk(rows: seq<UserScore>)
  {
    UniqueUsers(rows) && forall i :: 0 <= i < |rows| ==> RowOk(rows[i])
  }

  lemma ReplaceKeepsTable(rows: seq<UserScore>, j: nat, r: UserScore)
    requires TableOk(rows) && j < |rows| && rows[j].userId == r.userId && RowOk(r)
    ensures TableOk(rows[j := r])
  {
  }

  lemma AppendKeepsTable(rows: seq<UserScore>, r: UserScore)
    requires TableOk(rows) && RowOk(r)
    requires forall i :: 0 <= i < |rows| ==> rows[i].userId != r.userId
    ensures TableOk(rows + [r])
  {
  }

  /** With one row per user, the lookup finds the user's only row. */
  lemma UserIndexUnique(rows: seq<UserScore>, k: nat)
    requires UniqueUsers(rows) && k < |rows|
    ensures UserIndex(rows, rows[k].userId) == Some(k)
  {
  }

  /** The `user_scores` table. */
  class ScoreboardStore {
    var rows: seq<UserScore>

    predicate Valid()
      reads this
    {
      TableOk(rows)
    }

    constructor()
      ensures Valid() && rows == []
    {
      rows := [];
    }

    /** `update_user_score`: recompute the user's aggregate from the
        attempts table and upsert it. An existing row keeps its name unless
        a real one (neither empty nor the default) is given; a new row
        takes the given name. */
    method UpdateUserScore(attempts: seq<Attempt>, userId: Id, displayName: string, now: int)
      returns (row: UserScore)
      requires Valid()
      requires ScoresNonNegative(attempts)
      modifies this
      ensures Valid()
      ensures row.userId == userId && row.lastUpdated == now
      ensures row.totalScore == TotalBest(attempts, userId)
      ensures row.quizzesCompleted == QuizzesCompleted(attempts, userId)
      ensures UserIndex(rows, userId).Some? && rows[UserIndex(rows, userId).value] == row
      ensures match UserIndex(old(rows), userId)
        case Some(j) =>
          && row.displayName == (if displayName == "" || displayName == AnonymousName
                                 then old(rows)[j].displayName else displayName)
          && rows == old(rows)[j := row]
        case None => row.displayName == displayName && rows == old(rows) + [row]
    {
      var total, completed := AggregateScores(attempts, userId);
      TotalNonNegative(attempts, userId);
      match UserIndex(rows, userId)
      case Some(j) =>
        var name := if displayName == "" || displayName == AnonymousName then rows[j].displayName
                    else displayName;
        row := UserScore(userId, name, total, completed, now);
        ReplaceKeepsTable(rows, j, row);
        rows := rows[j := row];
        UserIndexUnique(rows, j);
      case None =>
        row := UserScore(userId, displayName, total, completed, now);
        AppendKeepsTable(rows, row);
        rows := rows + [row];
        UserIndexUnique(rows, |rows| - 1);
    }

    /** `ensure_user_exists`: a zero row for a user without one; an
        existing row is returned untouched. */
    method EnsureUserExists(userId: Id, displayName: string, now: int) returns (row: UserScore)
      requires Valid()
      modifies this
      ensures Valid()
      ensures row.userId == userId
      ensures match UserIndex(old(rows), userId)
        case Some(j) => row == old(rows)[j] && rows == old(rows)
        case None => row == UserScore(userId, displayName, 0, 0, now) && rows == old(rows) + [row]
    {
      match UserIndex(rows, userId)
      case Some(j) =>
        row := rows[j];
      case None =>
        row := UserScore(userId, displayName, 0, 0, now);
        AppendKeepsTable(rows, row);
        rows := rows + [row];
    }
  }

  /** After an upsert the user's row is the recomputed one, whatever the
      row held before: the aggregate is never applied as a delta. */
  lemma UpsertIsRecomputation(rows: seq<UserScore>, attempts: seq<Attempt>, userId: Id, displayName: string, now: int)
    requires TableOk(rows)
    ensures var stored := match UserIndex(rows, userId) case Some(j) => Some(rows[j].displayName) case None => None;
      var r := ScoreRow(attempts, userId, stored, displayName, now);
      r.totalScore == TotalBest(attempts, userId) && r.quizzesCompleted == |BestPerQuiz(attempts, userId).Keys|
  {
    QuizzesCompletedIsQuizCount(attempts, userId);
  }
}
