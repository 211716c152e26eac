/** The quiz table with its questions and answers, and the owner-checked
    create, read, replace, delete and list operations of `QuizService`. */
module Quizzes {
  import opened Common
  import opened QuizSchema
  import opened Sorting

  /** A stored answer option. The `answers` of a question are held in
      `display_order` order, as the relationship loads them. */
  datatype Answer = Answer(id: Id, text: string, isCorrect: bool, displayOrder: nat)

  datatype Question = Question(id: Id, text: string, displayOrder: nat, points: int, answers: seq<Answer>)

  datatype Quiz = Quiz(id: Id, title: string, ownerId: Id, createdAt: int, updatedAt: int,
                       questions: seq<Question>)

  /** One row of `list_quizzes`. */
  datatype QuizListItem = QuizListItem(id: Id, title: string, questionCount: nat, createdAt: int, updatedAt: int)

  /** What a stored quiz says, without identifiers, ordering columns and
      timestamps: the request it was built from. */
  function AnswersContent(answers: seq<Answer>): seq<AnswerCreate>
  {
    seq(|answers|, j requires 0 <= j < |answers| => AnswerCreate(answers[j].text, answers[j].isCorrect))
  }

  function QuestionContent(q: Question): QuestionCreate
  {
    QuestionCreate(q.text, AnswersContent(q.answers), q.points)
  }

  function QuestionsContent(qs: seq<Question>): seq<QuestionCreate>
  {
    seq(|qs|, i requires 0 <= i < |qs| => QuestionContent(qs[i]))
  }

  function Content(quiz: Quiz): QuizCreate
  {
    QuizCreate(quiz.title, QuestionsContent(quiz.questions))
  }

  /** `display_order` runs 1..n in list order. */
  predicate NumberedAnswers(answers: seq<Answer>)
  {
    forall j :: 0 <= j < |answers| ==> answers[j].displayOrder == j + 1
  }

  predicate Numbered(qs: seq<Question>)
  {
    forall i :: 0 <= i < |qs| ==> qs[i].displayOrder == i + 1 && NumberedAnswers(qs[i].answers)
  }

  /** Every question and answer identifier lies in [lo, hi). */
  predicate AnswerIdsIn(answers: seq<Answer>, lo: nat, hi: nat)
  {
    forall j :: 0 <= j < |answers| ==> lo <= answers[j].id < hi
  }

  predicate IdsIn(qs: seq<Question>, lo: nat, hi: nat)
  {
    forall i :: 0 <= i < |qs| ==> lo <= qs[i].id < hi && AnswerIdsIn(qs[i].answers, lo, hi)
  }

  /** The answer rows `create_quiz` adds for one question, numbered from 1
      in request order, with identifiers drawn from `firstId` upwards. */
  method BuildAnswers(data: seq<AnswerCreate>, firstId: Id) returns (answers: seq<Answer>, nextId: Id)
    ensures nextId == firstId + |data|
    ensures AnswersContent(answers) == data
    ensures NumberedAnswers(answers)
    ensures AnswerIdsIn(answers, firstId, nextId)
  {
    answers := [];
    nextId := firstId;
    var i := 0;
    while i < |data|
      invariant 0 <= i <= |data|
      invariant nextId == firstId + i
      invariant |answers| == i
      invariant forall j :: 0 <= j < i ==>
        answers[j] == Answer(firstId + j, data[j].text, data[j].isCorrect, j + 1)
    {
      answers := answers + [Answer(nextId, data[i].text, data[i].isCorrect, i + 1)];
      nextId := nextId + 1;
      i := i + 1;
    }
    assert AnswersContent(answers) == data by {
      assert forall j :: 0 <= j < |data| ==> AnswersContent(answers)[j] == data[j];
    }
  }

  /** The question rows (with their answers) for a validated question
      list, numbered from 1 in request order. */
  method BuildQuestions(data: seq<QuestionCreate>, firstId: Id) returns (qs: seq<Question>, nextId: Id)
    ensures firstId <= nextId
    ensures QuestionsContent(qs) == data
    ensures Numbered(qs)
    ensures IdsIn(qs, firstId, nextId)
  {
    qs := [];
    nextId := firstId;
    var i := 0;
    while i < |data|
      invariant 0 <= i <= |data|
      invariant firstId <= nextId
      invariant |qs| == i
      invariant forall j :: 0 <= j < i ==> QuestionContent(qs[j]) == data[j]
      invariant Numbered(qs)
      invariant IdsIn(qs, firstId, nextId)
    {
      var questionId := nextId;
      var answers, after := BuildAnswers(data[i].answers, nextId + 1);
      var q := Question(questionId, data[i].text, i + 1, data[i].points, answers);
      assert QuestionContent(q) == data[i];
      qs := qs + [q];
      nextId := after;
      i := i + 1;
    }
    assert QuestionsContent(qs) == data by {
      assert forall j :: 0 <= j < |data| ==> QuestionsContent(qs)[j] == data[j];
    }
  }

  /** A newer `updated_at` sorts first. */
  function NewerFirst(a: QuizListItem, b: QuizListItem): bool
  {
    a.updatedAt > b.updatedAt
  }

  lemma NewerFirstIsStrictOrder()
    ensures StrictOrder(NewerFirst)
  {
  }

  function ListItem(q: Quiz): QuizListItem
  {
    QuizListItem(q.id, q.title, |q.questions|, q.createdAt, q.updatedAt)
  }

  /** The list items of the quizzes an owner holds, in table order. */
  function OwnedItems(qs: seq<Quiz>, ownerId: Id): (r: seq<QuizListItem>)
    ensures forall x :: x in r <==> exists i :: 0 <= i < |qs| && qs[i].ownerId == ownerId && x == ListItem(qs[i])
  {
    if qs == [] then []
    else
      var rest := OwnedItems(qs[1..], ownerId);
      assert forall i :: 1 <= i < |qs| ==> qs[i] == qs[1..][i - 1];
      if qs[0].ownerId == ownerId then [ListItem(qs[0])] + rest else rest
  }

  /** The position of the quiz `get_quiz` selects: `quizId`, and when an
      owner is given, that owner too. */
  function QuizIndex(qs: seq<Quiz>, quizId: Id, owner: Option<Id>): (r: Option<nat>)
    ensures r.Some? ==> (r.value < |qs| && qs[r.value].id == quizId
      && (owner.Some? ==> qs[r.value].ownerId == owner.value))
    ensures r.None? <==> forall i :: 0 <= i < |qs| ==>
      qs[i].id != quizId || (owner.Some? && qs[i].ownerId != owner.value)
  {
    FirstIndex(qs, (q: Quiz) => q.id == quizId && (owner.None? || q.ownerId == owner.value))
  }

  /** A quiz appended with a fresh identifier is found at the end. */
  lemma IndexOfAppended(qs: seq<Quiz>, q: Quiz)
    requires forall i :: 0 <= i < |qs| ==> qs[i].id != q.id
    ensures QuizIndex(qs + [q], q.id, Some(q.ownerId)) == Some(|qs|)
  {
    var r := qs + [q];
    assert r[|qs|] == q;
    assert forall i :: 0 <= i < |qs| ==> r[i].id != q.id;
  }

  predicate AllStored(qs: seq<Quiz>, nextId: nat)
  {
    forall i :: 0 <= i < |qs| ==> Stored(qs[i], nextId)
  }

  predicate UniqueQuizIds(qs: seq<Quiz>)
  {
    forall i, j :: 0 <= i < |qs| && 0 <= j < |qs| && qs[i].id == qs[j].id ==> i == j
  }

  /** A quiz as the store keeps it: built from a validated request and
      numbered, with identifiers below the store's counter. */
  predicate Stored(q: Quiz, nextId: nat)
  {
    && WellFormedQuiz(Content(q))
    && Numbered(q.questions)
    && q.id < nextId
    && IdsIn(q.questions, 0, nextId)
  }

  class QuizStore {
    var quizzes: seq<Quiz>
    var nextId: Id

    ghost predicate Valid()
      reads this
    {
      UniqueQuizIds(quizzes) && AllStored(quizzes, nextId)
    }

    /** Every quiz the store holds is as the store keeps it. */
    lemma StoredQuiz(q: Quiz)
      requires Valid() && q in quizzes
      ensures Stored(q, nextId)
    {
      var k :| 0 <= k < |quizzes| && quizzes[k] == q;
    }

    constructor()
      ensures Valid() && quizzes == []
    {
      quizzes := [];
      nextId := 0;
    }

    function IndexOf(quizId: Id, owner: Option<Id>): (r: Option<nat>)
      reads this
      ensures r == QuizIndex(quizzes, quizId, owner)
    {
      QuizIndex(quizzes, quizId, owner)
    }

    /** `QuizService.get_quiz`: the quiz with this id, or None when there is
        none or, with an owner filter, when someone else owns it. */
    function GetQuiz(quizId: Id, owner: Option<Id>): (r: Option<Quiz>)
      reads this
      ensures r.Some? ==> r.value in quizzes && r.value.id == quizId
      ensures r.Some? && owner.Some? ==> r.value.ownerId == owner.value
      ensures r.None? <==> forall i :: 0 <= i < |quizzes| ==>
        quizzes[i].id != quizId || (owner.Some? && quizzes[i].ownerId != owner.value)
    {
      var k := IndexOf(quizId, owner);
      if k.None? then None else Some(quizzes[k.value])
    }

    /** `QuizService.create_quiz`: a new quiz owned by `ownerId` whose
        questions and answers are the request's, in its order, numbered
        from 1. */
    method CreateQuiz(ownerId: Id, data: QuizCreate, now: int) returns (quiz: Quiz)
      requires Valid()
      requires WellFormedQuiz(data)
      modifies this
      ensures Valid()
      ensures quizzes == old(quizzes) + [quiz]
      ensures forall i :: 0 <= i < |old(quizzes)| ==> old(quizzes)[i].id != quiz.id
      ensures quiz.ownerId == ownerId && quiz.createdAt == now && quiz.updatedAt == now
      ensures Content(quiz) == data
      ensures Numbered(quiz.questions)
      ensures IdsIn(quiz.questions, old(nextId), nextId)
      ensures GetQuiz(quiz.id, Some(ownerId)) == Some(quiz)
    {
      var quizId := nextId;
      var questions, after := BuildQuestions(data.questions, nextId + 1);
      quiz := Quiz(quizId, data.title, ownerId, now, now, questions);
      BuiltIsStored(quiz, data, nextId + 1, after);
      AppendStored(quizzes, quiz, nextId, after);
      IndexOfAppended(quizzes, quiz);
      quizzes := quizzes + [quiz];
      nextId := after;
    }

    /** `QuizService.update_quiz`: None, changing nothing, when the quiz is
        missing or not owned by `ownerId`. Otherwise the title is replaced
        and the question list becomes exactly the new one, renumbered from
        1 with new identifiers; identity, owner and creation time stay.
        `updated_at` moves to `now` only when the title changed, since only
        then is the quiz row itself written. */
    method UpdateQuiz(quizId: Id, ownerId: Id, data: QuizCreate, now: int) returns (r: Option<Quiz>)
      requires Valid()
      requires WellFormedQuiz(data)
      modifies this
      ensures Valid()
      ensures old(IndexOf(quizId, Some(ownerId))).None? <==> r.None?
      ensures r.None? ==> quizzes == old(quizzes) && nextId == old(nextId)
      ensures r.Some? ==>
        var k := old(IndexOf(quizId, Some(ownerId))).value;
        var before := old(quizzes)[k];
        && quizzes == old(quizzes)[k := r.value]
        && r.value.id == quizId && r.value.ownerId == ownerId
        && r.value.createdAt == before.createdAt
        && r.value.updatedAt == (if data.title == before.title then before.updatedAt else now)
        && Content(r.value) == data
        && Numbered(r.value.questions)
        && IdsIn(r.value.questions, old(nextId), nextId)
    {
      var found := IndexOf(quizId, Some(ownerId));
      if found.None? {
        return None;
      }
      var k := found.value;
      var before := quizzes[k];
      var questions, after := BuildQuestions(data.questions, nextId);
      var updatedAt := if data.title == before.title then before.updatedAt else now;
      var quiz := before.(title := data.title, updatedAt := updatedAt, questions := questions);
      BuiltIsStored(quiz, data, nextId, after);
      ReplaceStored(quizzes, k, quiz, nextId, after);
      quizzes := quizzes[k := quiz];
      nextId := after;
      r := Some(quiz);
    }

    /** `QuizService.delete_quiz`: false, changing nothing, for a missing
        quiz or another owner's; otherwise the quiz row (with its questions
        and answers) is removed and is then absent. */
    method DeleteQuiz(quizId: Id, ownerId: Id) returns (deleted: bool)
      requires Valid()
      modifies this
      ensures Valid()
      ensures deleted <==> old(GetQuiz(quizId, Some(ownerId))).Some?
      ensures !deleted ==> quizzes == old(quizzes)
      ensures deleted ==>
        var k := old(IndexOf(quizId, Some(ownerId))).value;
        quizzes == old(quizzes)[..k] + old(quizzes)[k + 1..]
      ensures deleted ==> GetQuiz(quizId, None) == None
      ensures nextId == old(nextId)
    {
      var found := IndexOf(quizId, Some(ownerId));
      if found.None? {
        return false;
      }
      var k := found.value;
      RemoveStored(quizzes, k, nextId);
      quizzes := quizzes[..k] + quizzes[k + 1..];
      deleted := true;
    }

    /** `QuizService.list_quizzes`: the owner's quizzes and nobody else's,
        each with its question count, most recently updated first. */
    function ListQuizzes(ownerId: Id): (items: seq<QuizListItem>)
      reads this
      ensures multiset(items) == multiset(OwnedItems(quizzes, ownerId))
      ensures Ordered(items, NewerFirst)
    {
      NewerFirstIsStrictOrder();
      SortOrdered(OwnedItems(quizzes, ownerId), NewerFirst);
      Sort(OwnedItems(quizzes, ownerId), NewerFirst)
    }
  }

  /** A quiz built from a validated request is stored. */
  lemma BuiltIsStored(q: Quiz, data: QuizCreate, lo: nat, hi: nat)
    requires WellFormedQuiz(data) && Content(q) == data
    requires Numbered(q.questions) && IdsIn(q.questions, lo, hi) && q.id < hi
    ensures Stored(q, hi)
  {
    forall i | 0 <= i < |q.questions|
      ensures 0 <= q.questions[i].id < hi && AnswerIdsIn(q.questions[i].answers, 0, hi)
    {
      assert lo <= q.questions[i].id < hi && AnswerIdsIn(q.questions[i].answers, lo, hi);
    }
  }

  /** Raising the counter keeps every stored quiz stored. */
  lemma StoredGrows(qs: seq<Quiz>, lo: nat, hi: nat)
    requires lo <= hi
    requires AllStored(qs, lo)
    ensures AllStored(qs, hi)
  {
    forall i | 0 <= i < |qs|
      ensures Stored(qs[i], hi)
    {
      assert Stored(qs[i], lo);
    }
  }

  lemma AppendStored(qs: seq<Quiz>, q: Quiz, lo: nat, hi: nat)
    requires lo <= hi
    requires AllStored(qs, lo) && Stored(q, hi)
    requires UniqueQuizIds(qs) && q.id == lo
    ensures AllStored(qs + [q], hi) && UniqueQuizIds(qs + [q])
    ensures forall i :: 0 <= i < |qs| ==> qs[i].id != q.id
  {
    StoredGrows(qs, lo, hi);
    forall i | 0 <= i < |qs|
      ensures qs[i].id < lo
    {
      assert Stored(qs[i], lo);
    }
  }

  lemma ReplaceStored(qs: seq<Quiz>, k: nat, q: Quiz, lo: nat, hi: nat)
    requires lo <= hi && k < |qs|
    requires AllStored(qs, lo) && Stored(q, hi)
    requires UniqueQuizIds(qs) && q.id == qs[k].id
    ensures AllStored(qs[k := q], hi) && UniqueQuizIds(qs[k := q])
  {
    StoredGrows(qs, lo, hi);
  }

  lemma RemoveStored(qs: seq<Quiz>, k: nat, n: nat)
    requires k < |qs|
    requires AllStored(qs, n) && UniqueQuizIds(qs)
    ensures AllStored(qs[..k] + qs[k + 1..], n) && UniqueQuizIds(qs[..k] + qs[k + 1..])
    ensures var r := qs[..k] + qs[k + 1..]; forall i :: 0 <= i < |r| ==> r[i].id != qs[k].id
  {
    var r := qs[..k] + qs[k + 1..];
    assert forall i :: 0 <= i < |r| ==> r[i] == qs[if i < k then i else i + 1];
  }

  /** Exactly the owner's quizzes are listed, each with the number of its
      questions. */
  lemma ListedIffOwned(store: QuizStore, ownerId: Id, x: QuizListItem)
    ensures x in store.ListQuizzes(ownerId) <==>
      exists i :: 0 <= i < |store.quizzes| && store.quizzes[i].ownerId == ownerId
        && x == QuizListItem(store.quizzes[i].id, store.quizzes[i].title, |store.quizzes[i].questions|,
                             store.quizzes[i].createdAt, store.quizzes[i].updatedAt)
  {
    var items := store.ListQuizzes(ownerId);
    assert x in items <==> x in multiset(items);
    assert x in OwnedItems(store.quizzes, ownerId) <==> x in multiset(OwnedItems(store.quizzes, ownerId));
  }
}
